# frost, modelled in Dafny

frost reads ROS bag files (format version 2.0). A bag is:

- the magic line `#ROSBAG V2.0\n`;
- a sequence of records. Each record is a 4-byte little-endian header length, a header of `name=value` fields (each field itself prefixed by a 4-byte length), a 4-byte data length, and the data.

The header field `op` says what the record is:

| op | record |
|---|---|
| 0x02 | message data |
| 0x03 | bag header |
| 0x04 | index data |
| 0x05 | chunk |
| 0x06 | chunk info |
| 0x07 | connection |

This project models the reader's core as pure functions over byte sequences:

- **Byte primitives.** Little-endian `u8`/`u32`/`u64` reads at an offset, and length-prefixed slices.
- **ROS time.** Parsing from 8 bytes, the ordering (seconds, then nanoseconds), and durations.
- **Header fields.** Splitting a header into fields at the first `=`. Reading the op code. The version check.
- **Record headers.** One shared field loop that every header parser follows:
  - an unknown field name is an error;
  - a wrong `op` is an error;
  - a repeated field keeps its last value;
  - a missing required field is an error.

  The typed headers built on it are bag header, chunk, chunk info, connection, index data and message data, plus the index and chunk-info data entries.
- **The record loop of `BagMetadata::from_bytes`.** Per-record dispatch. Skipping chunk bodies. Reading index and chunk-info blocks. The final consistency checks. Joining chunk headers with chunk infos.
- **The `BagMetadata` summaries.** Connection ids by topic and by type, message counts, start/end time, duration, compression statistics, and the topic and type lists.
- **Chunk population of `DecompressedBag`.** The lz4 decoder is a function parameter.
- **`Query` and `BagIter`.** Builders, selection of index entries, time-window filter, ordering by time, and the message slices `next` yields.
- **The older reader in `src/lib.rs`.** Its readers, header parsers and record helpers, related back to the newer ones.
- **The message-definition code generator `frost-codegen`:**
  - the `.msg` grammar (`parsing.rs`);
  - the Rust struct/impl emitter (`lib.rs`);
  - the line-based converter of the older `main.rs`.

The field, header and fixed-width entry parsers come with an encoder and a round-trip lemma: the parser reads back what the encoder wrote. The record loop of `BagMetadata::from_bytes` has no encoder; it comes with the invariant the loop keeps and a worked example. Chunk population is tied to the chunk metadata by a lemma instead. The summaries come with a reference definition over the bag's maps and a lemma connecting the two.

Modules: `Wrappers`, `Bytes`, `RosTime`, `Errors`, `Parsing`, `Fields`, `HeaderLoop`, `Headers`, `Records`, `Chunks`, `Ordered`, `Summary`, `Compression`, `Topics`, `Queries`, `Legacy`, `Text`, `MsgGrammar`, `MsgGrammarCases`, `RustEmit`, `LineCodegen`.

Modelling conventions:

- Rust `u32`/`u64` are subset types of `int`.
- File positions are `nat`.
- A Rust panic caused by a bad input is an explicit error value: `SliceOutOfRange` or `Panicked`. Examples are an out-of-range slice, or `unwrap` on a missing map entry.
- `std::io` streams are byte sequences with a cursor position.
- Hash-set and hash-map iteration order is made deterministic:
  - connection ids are visited in ascending order;
  - compression entries are kept in first-use order before the sort by size.

## Model

| member | source | states |
|---|---|---|
| Parsing.ParseU8At | frost/src/util/parsing.rs:11-17 | succeeds exactly when the offset is inside the buffer and returns that byte; otherwise BufferTooSmall |
| Parsing.ParseLeU32At | frost/src/util/parsing.rs:25-31 | succeeds exactly when four bytes are available at the offset; the value is their little-endian number; otherwise BufferTooSmall |
| Parsing.ParseLeU64At | frost/src/util/parsing.rs:39-45 | succeeds exactly when eight bytes are available at the offset; little-endian value; otherwise BufferTooSmall |
| Parsing.ParseU8 | frost/src/util/parsing.rs:6-8 | the offset-0 reader: succeeds iff the buffer is non-empty |
| Parsing.ParseLeU32 | frost/src/util/parsing.rs:20-22 | the offset-0 reader: succeeds iff at least four bytes, little-endian value |
| Parsing.ParseLeU64 | frost/src/util/parsing.rs:34-36 | the offset-0 reader: succeeds iff at least eight bytes, little-endian value |
| Parsing.ParseLeU32AtRoundTrip | frost/src/util/parsing.rs:25-31 | reading back a written 4-byte little-endian value at any offset of any surrounding bytes gives the value |
| Parsing.ParseLeU64AtRoundTrip | frost/src/util/parsing.rs:39-45 | the same round trip for 8-byte values |
| Parsing.ReadsAreLocal | frost/src/util/parsing.rs:11-45 | a read depends only on the bytes it covers: two buffers of the same length that agree from the offset onwards for 8 bytes give the same u8, u32 and u64 results |
| Parsing.GetLengthedBytes | frost/src/util/parsing.rs:48-65 | reads a 4-byte little-endian length n, then exactly n bytes; BufferTooSmall when either is cut short; the cursor ends right after the slice |
| Parsing.GetLengthedBytesRoundTrip | frost/src/util/parsing.rs:48-65 | a length-prefixed slice written anywhere in a stream reads back as the same slice with the cursor just past it |
| Bytes.LeValueOfLeBytes | frost/src/util/parsing.rs:20-45 | decoding the little-endian encoding of a value below 256^n gives the value back |
| Bytes.LeBytesOfLeValue | frost/src/util/parsing.rs:20-45 | encoding the decoded value of n bytes gives the same n bytes back |
| Bytes.LeValueSplit | frost/src/util/parsing.rs:20-45 | the value of a byte string is the value of its low part plus 256^k times the value of its high part |
| RosTime.FromBytes | frost/src/util/time.rs:64-68 | a time is read from 8 bytes: seconds from bytes 0..4 and nanoseconds from bytes 4..8, both little-endian |
| RosTime.FromBytesRoundTrip | frost/src/util/time.rs:64-68 | reading the 8-byte encoding of any time gives that time |
| RosTime.Cmp | frost/src/util/time.rs:77-87 | the comparison is Less, Equal or Greater according to the total nanoseconds secs*10^9+nsecs |
| RosTime.CmpIsTotalPreorder | src/util/time.rs:15-51 | the ordering (the same Duration comparison in the older and newer time modules) is reflexive, transitive and total, and Less one way is Greater the other way |
| RosTime.EqImpliesCmpEqual | frost/src/util/time.rs:89-93 | equal times compare Equal |
| RosTime.CmpEqualDoesNotImplyEq | frost/src/util/time.rs:77-93 | two different (seconds, nanoseconds) pairs with nanoseconds of 10^9 or more can compare Equal, so `eq` and `cmp` disagree off normalised times |
| RosTime.CmpIsLexicographic | frost/src/util/time.rs:77-87 | on normalised times (nanoseconds below 10^9) the ordering is lexicographic on (seconds, nanoseconds) |
| RosTime.Bounds | frost/src/util/time.rs:9-14 | ZERO is at or before every time, MIN ({0, 1}) is strictly after ZERO, and MAX is at or after every time whose nanoseconds are below 10^9 |
| RosTime.Dur | frost/src/util/time.rs:69-71 | `a.dur(b)` exists exactly when b is not after a, and then b's nanoseconds plus the duration are a's; None stands for the panic of the Duration subtraction |
| RosTime.DurProperties | src/util/time.rs:15-38 | the duration of a time from itself is zero, durations add up along a chain a, b, c, and two times with durations both ways compare Equal |
| Legacy.TimeFrom | src/util/time.rs:31-35 | succeeds exactly on 8 or more bytes, seconds from bytes 0..4 and nanoseconds from 4..8; otherwise InvalidInput |
| Fields.OpCodeFrom | frost/src/lib.rs:81-94 | succeeds exactly for bytes 0x02..0x07, and then the op code's byte is the input; any other byte is InvalidOpCode |
| Fields.OpCodeRoundTrip | frost/src/lib.rs:71-94 | every op code reads back from its byte, and distinct op codes have distinct bytes |
| Fields.FieldSepIndex | frost/src/lib.rs:106-110 | finds the first `=` of the buffer; MissingFieldSeparator exactly when there is none |
| Fields.FieldSepIndexOf | frost/src/lib.rs:106-110 | for a name without `=` followed by `=` and any value, the separator is at the name's length |
| Fields.FieldSepIndexExamples | frost/src/lib.rs:1124-1131 | `hello=banana` has its separator at 5, its slice 2..8 at 3, and a buffer without `=` fails |
| Fields.ParseField | frost/src/lib.rs:113-124 | BufferTooSmall iff no 4-byte length fits; SliceOutOfRange iff the field runs past the buffer; MissingFieldSeparator iff the field has no `=`; otherwise the name before and the value after the first `=` |
| Fields.ParseFieldRoundTrip | frost/src/lib.rs:113-124 | an encoded field (name without `=`) placed anywhere in a buffer parses back to that field, ending right after it |
| Fields.SplitFieldsRoundTrip | frost/src/lib.rs:152-179 | a non-empty run of encoded fields placed after any prefix splits back into exactly those fields |
| Fields.ReadHeaderOpIsFirstOp | frost/src/lib.rs:1012-1028 | the record's op is the value of the first `op` field of the header, read as an op code |
| Fields.ReadHeaderOpStopsAtOp | frost/src/lib.rs:1012-1028 | after fields that are not `op`, the first `op` field alone decides the result, whatever bytes follow it: its first byte read as an op code, or BufferTooSmall when its value is empty |
| Fields.VersionCheck | frost/src/lib.rs:126-135 | accepts exactly the files that start with `#ROSBAG V2.0\n` and then reports "2.0"; a file shorter than the magic is an I/O error; any other start is NotARosbag |
| Fields.VersionCheckAccepts | frost/src/lib.rs:1118-1121 | the magic followed by anything passes the version check |
| HeaderLoop.Decode | frost/src/lib.rs:156-174 | u32 fields need 4 bytes, u64 and time fields 8 bytes, text and flags never fail, skipped fields produce nothing; short values are BufferTooSmall |
| HeaderLoop.DecodeRoundTrip | frost/src/lib.rs:156-174 | each typed field value decodes back from its byte encoding; a flag is true exactly for the value "1" |
| HeaderLoop.Check | frost/src/lib.rs:156-173 | a field name outside the header's expected set is UnexpectedField; an `op` field with the wrong op code is UnexpectedOpCode |
| HeaderLoop.FoldSeqOk | frost/src/lib.rs:152-179 | the field loop succeeds exactly when every field is accepted |
| HeaderLoop.FoldSeqFirstError | frost/src/lib.rs:152-179 | a failing loop reports the error of the first rejected field, and every field before it was accepted |
| HeaderLoop.FoldSeqStoresLast | frost/src/lib.rs:152-179 | after the loop each name holds the value of its last occurrence in the header |
| HeaderLoop.FoldFromIsFoldSeq | frost/src/lib.rs:152-179 | running the loop over the raw header equals running it over the header's split field list |
| HeaderLoop.ParseHeaderTyped | frost/src/lib.rs:152-179 | every value the loop stores has the type its field name calls for |
| HeaderLoop.EmptyHeaderFails | frost/src/lib.rs:152-179 | an empty header is BufferTooSmall (the loop reads at least one field) |
| HeaderLoop.ParseEncodedHeader | frost/src/lib.rs:152-179 | an encoded header of accepted fields with distinct names parses, each name holding its field's value |
| HeaderLoop.NeedOfEncoded | frost/src/lib.rs:180-194 | in the map of an encoded header, a required field is found with the value it was written with |
| HeaderLoop.MissingOfEncoded | frost/src/lib.rs:180-194 | in the map of an encoded header, a name no field carries is MissingField for every required kind, and absent for optional text and flags |
| Headers.BagHeaderFrom | frost/src/lib.rs:145-195 | field-loop errors propagate; success exactly when index_pos, conn_count and chunk_count are all present, else MissingField; each record field is the value the loop stored under its name, so a repeated field gives its last value |
| Headers.BagHeaderRoundTrip | frost/src/lib.rs:145-195 | the bag header written as fields parses back to itself |
| Headers.ChunkHeaderFrom | frost/src/lib.rs:222-274 | compression and size are required and returned as the values stored under those names; the record's header position, data position and compressed size are carried through unchanged |
| Headers.ChunkHeaderRoundTrip | frost/src/lib.rs:222-274 | a chunk header written as fields parses back to the same compression and size |
| Headers.ChunkInfoHeaderFrom | frost/src/lib.rs:289-351 | field-loop errors propagate; success exactly when ver, chunk_pos, start_time, end_time and count are present; the record holds the values stored under those names |
| Headers.ChunkInfoHeaderRoundTrip | frost/src/lib.rs:289-351 | a chunk-info header written as fields parses back to itself |
| Headers.ConnectionHeaderFrom | frost/src/lib.rs:375-421 | field-loop errors propagate; success exactly when conn and topic are present; the id and topic are the values stored under conn and topic |
| Headers.ConnectionHeaderRoundTrip | frost/src/lib.rs:375-421 | a connection header written as fields parses back to itself |
| Headers.ConnectionDataFrom | frost/src/lib.rs:438-492 | type, md5sum and message_definition are required and returned as stored; callerid is kept, with its stored value, exactly when present; latching is true exactly when its value is "1"; the topic is the record header's, not the data's |
| Headers.ConnectionDataRoundTrip | frost/src/lib.rs:438-492 | connection data written as fields, with any data topic, parses back to the connection with the header's topic |
| Headers.IndexDataHeaderFrom | frost/src/lib.rs:502-552 | field-loop errors propagate; success exactly when ver, conn and count are present; the record holds the values stored under those names |
| Headers.IndexDataHeaderRoundTrip | frost/src/lib.rs:502-552 | an index-data header written as fields parses back to itself |
| Headers.MessageDataHeaderFrom | frost/src/lib.rs:591-635 | field-loop errors propagate; success exactly when conn and time are present; the connection id and time are the values stored under those names |
| Headers.MessageDataHeaderRoundTrip | frost/src/lib.rs:591-635 | a message-data header written as fields parses back to itself |
| Headers.ChunkInfoDataFrom | frost/src/lib.rs:360-365 | succeeds exactly on 8 or more bytes: connection id from bytes 0..4 and count from 4..8; otherwise BufferTooSmall |
| Headers.IndexDataFrom | frost/src/lib.rs:568-579 | succeeds exactly on 12 or more bytes: time from bytes 0..8, offset from 8..12, with the given chunk position and connection |
| Headers.EntriesRoundTrip | frost/src/lib.rs:360-365 | an index entry and a chunk-info entry each read back from their 12- and 8-byte encodings |
| Records.IndexEntries | frost/src/lib.rs:868-872 | the data is read in whole 12-byte windows, one entry per window, each carrying the block's connection and chunk |
| Records.ChunkInfoEntries | frost/src/lib.rs:846-850 | the data is read in whole 8-byte windows, one entry per window |
| Records.IndexEntriesRoundTrip | frost/src/lib.rs:860-880 | entries of one connection and chunk, written back to back, read back as the same entries |
| Records.ChunkInfoEntriesRoundTrip | frost/src/lib.rs:846-850 | chunk-info entries written back to back read back as the same entries |
| Records.ParseBagHeader | frost/src/lib.rs:784-804 | UnindexedBag exactly when index_pos is 0; UnexpectedEOF when the data length cannot be read; otherwise the cursor moves past the data |
| Records.ParseChunk | frost/src/lib.rs:819-837 | records the chunk's header position, data position and compressed size, and moves the cursor past the chunk data without reading it |
| Records.ParseIndex | frost/src/lib.rs:860-880 | succeeds exactly when the index-data header parses, the data block can be read and holds as many 12-byte entries as the header's count; header and data-read errors propagate, and a count mismatch is MissingRecord; the entries carry the header's connection |
| Records.ParseIndexRoundTrip | frost/src/lib.rs:860-880 | an index-data header and its entries, written as a record anywhere in a file, parse back to the same connection and entries, with the cursor just past the data |
| Records.ParseChunkInfo | frost/src/lib.rs:839-858 | succeeds exactly when the chunk-info header parses, the data block can be read and holds as many 8-byte entries as the header's connection count; header and data-read errors propagate, and a count mismatch is MissingRecord |
| Records.ParseChunkInfoRoundTrip | frost/src/lib.rs:839-858 | a chunk-info header and its entries, written as a record anywhere in a file, parse back to the same chunk info, with the cursor just past the data |
| Records.ParseConnection | frost/src/lib.rs:806-817 | succeeds exactly when the connection header parses, the data block can be read and the connection data parses under the header's id and topic; each of those errors propagates |
| Records.ParseConnectionRoundTrip | frost/src/lib.rs:806-817 | a connection written as a record anywhere in a file, whatever topic its data repeats, parses back to the same connection, with the cursor just past the data |
| Records.AppendIndex | frost/src/lib.rs:931-934 | entries of a connection are appended after that connection's earlier entries; other connections are unchanged |
| Records.Dispatch | frost/src/lib.rs:914-946 | each op goes to its parser and the cursor moves forward; an index block before any chunk is InvalidBag; a message-data record at the record level is InvalidOpCode |
| Records.RecordHeader | frost/src/lib.rs:901-910 | the header slice has the length given by its 4-byte prefix; BufferTooSmall when it runs past the file |
| Records.ReadRecord | frost/src/lib.rs:900-947 | each record read moves the cursor strictly forward; header-read and op-read errors propagate |
| Records.FindInfo | frost/src/lib.rs:979-1003 | finds the first chunk info whose chunk position is the given one, and finds one whenever one exists |
| Records.MessageCounts | frost/src/lib.rs:979-1003 | the per-connection message counts of a chunk have exactly the chunk info's connections as keys, and each id maps to the count of its last entry, as collecting into a map keeps it |
| Records.JoinChunksKeys | frost/src/lib.rs:979-1003 | the joined chunk map has exactly the header positions of the chunks that have a chunk info, each entry keyed by its own position |
| Records.JoinChunksValue | frost/src/lib.rs:979-1003 | a joined entry combines the chunk header at that position with the first chunk info for it |
| Records.ConnectionMap | frost/src/lib.rs:1004-1007 | connections are keyed by their own id, and every stored connection is one that was parsed |
| Records.ConnectionMapLatest | frost/src/lib.rs:1004-1007 | when several connections share an id, the map holds the one parsed last, as collecting into a map keeps it |
| Records.Finish | frost/src/lib.rs:949-1007 | succeeds exactly when a bag header was read, the header's chunk count equals both the number of chunk headers and the number of chunk infos read, and its connection count equals the number of connections read; otherwise InvalidBag; the result joins chunks and infos and keys connections by id |
| Records.MetadataFromBytes | frost/src/lib.rs:657-677 | succeeds exactly when the version check and the record loop both succeed; version-check errors propagate as they are, record-loop errors wrapped as parse errors; a parsed bag has version "2.0" and the file's length as its size |
| Records.ParseRecordsInvariant | frost/src/lib.rs:882-1009 | after the record loop, chunk headers sit at strictly increasing offsets, and every index entry carries its own connection id and the position of a chunk read before it |
| Records.EmptyBagParses | frost/src/lib.rs:882-1009 | the magic followed by one indexed bag header that announces no connections and no chunks parses to an empty catalog |
| Records.ConnectionBagParses | frost/src/lib.rs:657-677 | the magic, an indexed bag header announcing no chunks and n connections, then n written connection records, parses to exactly those connections keyed by id, no chunks, no index entries, and the file's length |
| Chunks.ChunkBytes | frost/src/lib.rs:1077-1107 | a chunk whose data runs past the file panics; "none" gives the raw bytes; "lz4" needs at least 19 bytes, decodes bytes 11..len-8 and reports a decoder failure; any other compression is InvalidBag |
| Chunks.PopulateFromSpec | frost/src/lib.rs:1077-1107 | populating succeeds exactly when every chunk's bytes can be produced, and then holds exactly those bytes for every chunk |
| Chunks.DecompressedBagFromBytes | frost/src/lib.rs:1033-1052 | succeeds exactly when the metadata parses and every chunk's bytes can be produced; metadata errors and chunk errors propagate; a loaded bag keeps the parsed metadata |
| Chunks.DecompressedBagChunks | frost/src/lib.rs:1033-1052 | a loaded bag holds, for every chunk of the metadata, that chunk's decompressed bytes |
| Summary.IdsInOrderSpec | frost/src/util/query.rs:104-110 | a set of connection ids is listed exactly, once each, in ascending order |
| Summary.ConnectionIdsBySpec | frost/src/lib.rs:679-699 | a topic (or type) is a key exactly when some connection has it, and its ids are exactly those connections, listed in ascending order |
| Summary.ConnectionIdsByMember | frost/src/lib.rs:679-699 | an id is listed under a key exactly when it is a connection with that key |
| Summary.MessageCountSpec | frost/src/lib.rs:718-720 | the message count is the number of index entries summed over all connections |
| Summary.TopicMessageCountsSpec | frost/src/lib.rs:722-736 | one entry per topic that a connection has, counting the index entries of that topic's connections |
| Summary.TopicCountsAddUp | frost/src/lib.rs:718-736 | when all indexed ids are connections, the per-topic counts add up to the message count |
| Summary.TopicsCoverConnections | frost/src/lib.rs:722-736 | every connection falls under one of the counted topics |
| Summary.FirstMinSpec | frost/src/lib.rs:701-706 | the minimum of a non-empty time list is one of its elements, no element is smaller, and no earlier element is equal |
| Summary.LastMaxSpec | frost/src/lib.rs:708-710 | the maximum of a non-empty time list is one of its elements, no element is greater, and no later element is equal |
| Summary.StartTimeSpec | frost/src/lib.rs:701-706 | None exactly when there are no chunks; otherwise the start time of a chunk that no chunk starts before, and chunks at lower offsets start strictly later |
| Summary.EndTimeSpec | frost/src/lib.rs:708-710 | None exactly when there are no chunks; otherwise the end time of a chunk that no chunk ends after, and chunks at higher offsets end strictly earlier |
| Summary.DurationSpec | frost/src/lib.rs:712-716 | a bag without chunks has duration 0; when every chunk starts no later than it ends, the duration exists and is end time minus start time |
| Compression.TallyCount | frost/src/lib.rs:739-755 | the chunk counts of the tally add up to the number of chunks tallied |
| Compression.TallyFaithful | frost/src/lib.rs:739-755 | each tally entry holds the chunk count and the summed compressed and uncompressed sizes of the chunks using its compression |
| Compression.CompressionInfosSpec | frost/src/lib.rs:739-759 | one entry per compression used by some chunk, with that compression's totals; the counts add up to the number of chunks; entries are in descending order of total compressed size |
| Ordered.SortBy | frost/src/lib.rs:756-758 | the sort keeps the same multiset of elements and the same length |
| Ordered.SortBySorted | frost/src/lib.rs:756-758 | the result is ordered by the key and has the same members |
| Ordered.SortByDistinct | frost/src/lib.rs:756-758 | sorting keeps names distinct when they were distinct |
| Ordered.UniqueFirstSeen | frost/src/lib.rs:761-767 | duplicates are removed keeping the order in which values were first seen |
| Ordered.UniqueDistinct | frost/src/lib.rs:761-767 | the deduplicated list has no repeats |
| Topics.TopicsSpec | frost/src/lib.rs:761-767 | the topic list has no repeats, holds exactly the connections' topics, and lists them in the order their lowest-id connections appear |
| Topics.TypesSpec | frost/src/lib.rs:776-781 | the type set is exactly the set of keys of the connection ids by type |
| Topics.TopicsAndTypesSpec | frost/src/lib.rs:769-774 | a (topic, type) pair is listed exactly when some connection has that topic and that type |
| Queries.WithTopics | frost/src/util/query.rs:33-40 | sets the topic filter and leaves the other three filters unchanged |
| Queries.WithTypes | frost/src/util/query.rs:43-50 | sets the type filter and leaves the other three filters unchanged |
| Queries.WithStartTime | frost/src/util/query.rs:53-56 | sets the start bound and leaves the other three filters unchanged |
| Queries.WithEndTime | frost/src/util/query.rs:59-62 | sets the end bound and leaves the other three filters unchanged |
| Queries.IdsForSpec | frost/src/util/query.rs:78-103 | an id is selected for a name filter exactly when it is a connection whose topic (or type) the filter admits, no filter admitting all |
| Queries.SelectedIdsSpec | frost/src/util/query.rs:78-107 | the intersection selects exactly the connections whose topic and whose type both pass the query |
| Queries.AllSelectsEveryConnection | frost/src/util/query.rs:18-25 | the unrestricted query selects every connection |
| Queries.DisjointFiltersSelectNothing | frost/src/util/query.rs:78-107 | a topic filter and a type filter that no single connection satisfies select nothing |
| Queries.GatherMembers | frost/src/util/query.rs:108-110 | an entry is gathered exactly when it is an index entry of one of the selected ids |
| Queries.WindowMembers | frost/src/util/query.rs:111-123 | an entry passes the window exactly when its time is at or after the start bound and at or before the end bound |
| Queries.WindowOfAll | frost/src/util/query.rs:111-123 | without bounds the window keeps every entry in order |
| Queries.EntriesSpec | frost/src/util/query.rs:77-132 | the iterator's entries are ordered by time, are a permutation of the windowed entries gathered from the selected connections (duplicates kept), and are exactly the index entries of selected connections inside the window |
| Queries.AllCountsEveryMessage | frost/src/util/query.rs:18-25 | with every indexed id a connection, the unrestricted query yields as many entries as the bag's message count |
| Queries.BagIterNew | frost/src/util/query.rs:77-132 | a new iterator starts at its first entry; its entries are in non-decreasing time order and are a permutation of the windowed entries gathered from the selected connections; an index entry is among them exactly when its connection is selected by topic and type and its time lies in the window |
| Queries.GatherAsWrittenSpec | frost/src/util/query.rs:108-110 | the code as written succeeds exactly when every selected id has index entries, and then agrees with the corrected gathering; otherwise it panics |
| Queries.UnindexedConnectionPanics | frost/src/util/query.rs:108-110 | a bag with a connection but no index entries for it makes the code as written panic, while the corrected iterator is simply empty |
| Queries.NextWith | frost/src/util/query.rs:138-180 | past the last entry the iterator is finished; a yielded message advances the position by exactly one |
| Queries.MessageRangeAt | frost/src/util/query.rs:156-168 | at a well-framed record the message range runs from after the header to the end of the data, and includes the data's 4-byte length |
| Queries.NextReadable | frost/src/util/query.rs:138-180 | on a readable entry, next yields that entry's view and advances by one |
| Queries.DrainReadable | frost/src/util/query.rs:138-180 | when every remaining entry is readable, draining never panics and yields one view per remaining entry, in order |
| Queries.NextOnRecord | frost/src/util/query.rs:138-180 | for an entry pointing at a written message-data record, next yields the connection's topic and the record's data slice together with its 4-byte length |
| Legacy.ReadU8At | src/lib.rs:75-79 | succeeds exactly when the offset is inside the buffer; otherwise InvalidInput |
| Legacy.ReadLeU32At | src/lib.rs:84-88 | succeeds exactly when four bytes are available; little-endian value; otherwise InvalidInput |
| Legacy.ReadLeU64At | src/lib.rs:93-97 | succeeds exactly when eight bytes are available; little-endian value; otherwise InvalidInput |
| Legacy.ReadsAgree | src/util/parsing.rs:7-43 | the older readers (in the library and in its parsing module) fail on the same inputs as the newer ones and return the same values |
| Legacy.OpCodeFrom | src/lib.rs:59-69 | the older op-code conversion accepts the same bytes as the newer one, failing with InvalidInput |
| Legacy.FieldSepIndex | src/lib.rs:99-102 | the first `=`, as in the newer reader, but failing with InvalidData |
| Legacy.FieldSepIndexExamples | src/lib.rs:660-667 | `hello=banana` has its separator at 5, its slice 2..8 at 3, and a buffer without `=` fails |
| Legacy.ParseField | src/lib.rs:104-115 | InvalidInput exactly when no 4-byte length fits, a panic exactly when the field runs past the buffer, InvalidData exactly when it has no `=`; otherwise the field as the newer reader reads it |
| Legacy.ReadHeaderOp | src/lib.rs:582-598 | the record's op is that of the first `op` field; no `op` field is InvalidData and an unknown op byte is InvalidInput |
| Legacy.ReadHeaderOpStopsAtOp | src/lib.rs:582-598 | the older loop also returns at the first `op` field whatever follows: its first byte read as an op code, or InvalidInput when its value is empty |
| Legacy.BagHeaderFrom | src/lib.rs:119-153 | the older bag header parser accepts and rejects the same headers as the newer one |
| Legacy.ChunkHeaderFrom | src/lib.rs:164-195 | succeeds exactly when the newer chunk header parser does, with the same compression and size, and no positions |
| Legacy.ConnectionHeaderFrom | src/lib.rs:204-235 | the older connection header parser agrees with the newer one |
| Legacy.ConnectionDataFrom | src/lib.rs:248-282 | md5sum and message_definition are required and returned as stored, a `topic` field is ignored, callerid is kept with its stored value when present, latching is true exactly for "1"; id and topic come from the record header |
| Legacy.ConnectionDataRejectsType | src/lib.rs:248-282 | connection data carrying a `type` field is rejected as an unexpected field |
| Legacy.ConnectionDataRoundTrip | src/lib.rs:248-282 | connection data written with the older field set parses back |
| Legacy.IndexDataHeaderFrom | src/lib.rs:292-326 | the older index-data header parser agrees with the newer one |
| Legacy.IndexDataFrom | src/lib.rs:336-342 | succeeds exactly on 12 or more bytes, time from 0..8, offset from 8..12, with the given chunk position; otherwise InvalidInput |
| Legacy.ChunkInfoHeaderFrom | src/lib.rs:357-397 | field-loop errors propagate; success exactly when version, chunk_pos, start_time, end_time and connection_count are present, the times read as u64 and every field returned as stored; otherwise InvalidData |
| Legacy.ChunkInfoHeaderRoundTrip | src/lib.rs:357-397 | a chunk-info header written with the older field set parses back |
| Legacy.ChunkInfoFrom | src/lib.rs:409-434 | accepts only the fields conn and count, succeeds exactly when both are present, and returns their stored values |
| Legacy.ChunkInfoRejectsOp | src/lib.rs:409-434 | a chunk info header carrying its `op` field is rejected |
| Legacy.ChunkInfoRoundTrip | src/lib.rs:409-434 | a chunk info written without `op` parses back |
| Legacy.MessageDataFrom | src/lib.rs:445-470 | accepts only the fields conn and time, succeeds exactly when both are present, and returns their stored values, the time as a u64 |
| Legacy.MessageDataRejectsOp | src/lib.rs:445-470 | a message-data header carrying an `op` field is rejected |
| Legacy.WrittenMessageDataRejected | src/lib.rs:445-470 | a message-data header as the newer writer lays it out, with its `op`, is rejected by the older parser |
| Legacy.MessageDataRoundTrip | src/lib.rs:445-470 | a message-data header written without `op` parses back |
| Legacy.UnknownFieldRejected | src/lib.rs:119-153 | a header holding a field name its parser does not list is rejected |
| Legacy.VersionCheck | src/lib.rs:491-500 | accepts exactly the files starting with the magic; UnexpectedEof exactly when the file is shorter than it, InvalidData otherwise |
| Legacy.VersionChecksAgree | src/lib.rs:491-500 | the older and newer version checks accept the same files |
| Legacy.ReadLengthedBytes | src/lib.rs:502-513 | reads a 4-byte length then that many bytes; UnexpectedEof when cut short |
| Legacy.ParseBagHeader | src/lib.rs:515-525 | reads the length-prefixed bag header; an unindexed bag is InvalidData; otherwise the reader moves to index_pos |
| Legacy.ParseBagHeaderRoundTrip | src/lib.rs:515-525 | a written indexed bag header parses back with the cursor at its index position |
| Legacy.ParseConnection | src/lib.rs:527-531 | succeeds exactly when both length-prefixed reads and both parsers succeed; the connection is what ConnectionDataFrom reads from the data block with the header's id and topic, and the cursor ends after the data; a short read gives UnexpectedEof and a bad header gives the header parser's error |
| Legacy.ParseConnectionRoundTrip | src/lib.rs:527-531 | a written connection header block followed by its data block reads back as the connection, with the cursor just past the data |
| MsgGrammar.IdentEnd | frost-codegen/src/parsing.rs:48-54 | an identifier starts exactly at a letter or `_` and runs over the following identifier characters |
| MsgGrammar.DigitsEnd | frost-codegen/src/parsing.rs:56 | a digit run starts exactly at a digit and covers only digits |
| MsgGrammar.NewlineAt | frost-codegen/src/parsing.rs:75 | finds the first newline from the position, exactly when one exists |
| MsgGrammar.PackageSome | frost-codegen/src/parsing.rs:48-51 | an identifier followed by `/` is read as the package name |
| MsgGrammar.PackageNone | frost-codegen/src/parsing.rs:48-51 | an identifier not followed by `/` leaves no package and consumes nothing |
| MsgGrammar.BracketsEmpty | frost-codegen/src/parsing.rs:55-60 | `[]` is an array without a size |
| MsgGrammar.BracketsSized | frost-codegen/src/parsing.rs:55-69 | `[digits]` is an array of the digits' value, 0 when it does not fit in 64 bits |
| MsgGrammar.TypeAtOf | frost-codegen/src/parsing.rs:53-70 | a written type (optional package, name, optional brackets) followed by whitespace parses back to that type |
| MsgGrammar.ConstantRendered | frost-codegen/src/parsing.rs:72-81 | `type name=value` up to a newline parses as a constant whose value is the rest of the line, trimmed, with any `#` in it kept |
| MsgGrammar.FieldAtOf | frost-codegen/src/parsing.rs:82-88 | `type name` not followed by `=` is not a constant and parses as a field |
| MsgGrammar.StatementAt | frost-codegen/src/parsing.rs:72-88 | the constant alternative is tried first and the field alternative only when it fails |
| MsgGrammar.ParseSkipsWhitespace | frost-codegen/src/parsing.rs:90 | leading whitespace does not change the parse |
| MsgGrammar.ParseSkipsCommentLine | frost-codegen/src/parsing.rs:46 | a `#` comment up to its newline is skipped |
| MsgGrammar.ParseAtEnd | frost-codegen/src/parsing.rs:90-95 | the end of the text yields no statements |
| MsgGrammar.StrayTextEndsParse | frost-codegen/src/parsing.rs:90-95 | a character that starts no statement ends the repetition without error |
| MsgGrammar.LinesRoundTrip | frost-codegen/src/parsing.rs:45-91 | written lines of fields, constants and comments parse back to their statements |
| MsgGrammar.RenderedParses | frost-codegen/src/parsing.rs:93-95 | a whole written definition parses to exactly its statements |
| MsgGrammar.RenderedThenWhitespace | frost-codegen/src/parsing.rs:93-95 | trailing whitespace adds nothing to the parse |
| MsgGrammar.StopsAtStrayText | frost-codegen/src/parsing.rs:93-95 | text that starts no statement after a definition is ignored |
| MsgGrammar.FieldThenStrayText | frost-codegen/src/parsing.rs:82-95 | a field directly followed by a stray character still parses, and the parse stops there |
| MsgGrammarCases.FieldTestText | frost-codegen/src/parsing.rs:102-134 | fields between comment lines parse to the four expected field statements |
| MsgGrammarCases.ArrayTestText | frost-codegen/src/parsing.rs:137-170 | unsized and sized arrays between comments parse with their sizes |
| MsgGrammarCases.PackageFields | frost-codegen/src/parsing.rs:173-202 | a package-qualified field parses with its package, and the parse stops at a stray quote |
| MsgGrammarCases.PackageArrayType | frost-codegen/src/parsing.rs:173-202 | a package-qualified type with `[255]` is an array of size 255 |
| MsgGrammarCases.ConstantTestText | frost-codegen/src/parsing.rs:205-248 | constants parse with values trimmed of surrounding whitespace |
| MsgGrammarCases.ConstantTestValuesTrimmed | frost-codegen/src/parsing.rs:205-248 | the test's padded values trim to `bar`, `-123` and the sentence |
| RustEmit.FieldAndConstantPaths | frost-codegen/src/lib.rs:75-82 | a package-qualified field type is prefixed by `crate::msgs::`, and the constant's type path is the same without that prefix |
| RustEmit.BuiltinsKinds | frost-codegen/src/lib.rs:21-44 | every built-in ROS type maps to a primitive, a standard-library path or a frost time path |
| RustEmit.ReadDeclOf | frost-codegen/src/lib.rs:83-101 | one emitted field declaration reads back as its name and Rust type, marked big-array exactly when the size exceeds 32 |
| RustEmit.StructFieldsRoundTrip | frost-codegen/src/lib.rs:68-105 | the emitted struct body reads back as the fields' declarations in order, and constants leave no trace in it |
| RustEmit.ConstValue | frost-codegen/src/lib.rs:134-157 | a string constant becomes `&"` + the value with only `"` escaped + `"`, which reads back as the original value when the value holds no backslash; a bool is `true` exactly for "1"; a float gains `.` exactly when it has none; anything else is kept verbatim |
| RustEmit.ConstDeclRoundTrip | frost-codegen/src/lib.rs:117-158 | an emitted constant reads back as its name, `&'static str` or its type path, and its value expression; a string constant without a backslash reads back as its value |
| RustEmit.StringConstWithTrailingBackslash | frost-codegen/src/lib.rs:135-140 | a string constant whose only backslash is its last character is emitted as text that is not a string literal |
| RustEmit.ConstValueFixed | frost-codegen/src/lib.rs:134-157 | the corrected emitter: a string constant, escaped for `\` as well as `"`, reads back as its value for every value; other kinds are emitted as lib.rs does |
| RustEmit.ConstValuesAgree | frost-codegen/src/lib.rs:135-140 | the corrected emitter gives the same text as lib.rs's on every value without a backslash |
| RustEmit.ImplConstsAppend | frost-codegen/src/lib.rs:108-161 | the impl text of a statement list is the concatenation of its statements' impl texts |
| RustEmit.StructDefinitionRoundTrip | frost-codegen/src/lib.rs:62-164 | the emitted definition reads back as the struct's name, its field declarations and its constants |
| RustEmit.ParsedIdents | frost-codegen/src/parsing.rs:45-91 | every statement the grammar produces has identifier names |
| RustEmit.ParsedDefinitionRoundTrip | frost-codegen/src/lib.rs:53-164 | for any parsed message text the emitted definition reads back to its declarations and constants |
| RustEmit.TrailingBackslashBreaksLiteral | frost-codegen/src/lib.rs:135-140 | with only `"` escaped, the value `C:\` gives text that is not a string literal |
| RustEmit.BackslashEscapeMisread | frost-codegen/src/lib.rs:135-140 | with only `"` escaped, the value `\n` reads back as a newline |
| RustEmit.EscapeQuotesRoundTrip | frost-codegen/src/lib.rs:135-140 | escaping only `"` is correct for values without a backslash |
| RustEmit.EscapeRustRoundTrip | frost-codegen/src/lib.rs:135-140 | escaping both `\` and `"` reads back as the original value for every string |
| LineCodegen.BuiltinsWithoutHeader | frost-codegen/src/main.rs:44-66 | the older converter's built-in types are the newer ones without `Header` |
| LineCodegen.TokensOfSpaced | frost-codegen/src/main.rs:122 | words separated by spaces split back into the same words |
| LineCodegen.TokensOfTrim | frost-codegen/src/main.rs:113-122 | trimming before splitting on whitespace changes nothing |
| LineCodegen.ConvertLine | frost-codegen/src/main.rs:112-155 | no field exactly when the line has no words or its first word starts with `#` |
| LineCodegen.TrailingTextIgnored | frost-codegen/src/main.rs:122-153 | words after the second one do not change the result |
| LineCodegen.CommentLine | frost-codegen/src/main.rs:115-117 | an indented `#` line gives no field |
| LineCodegen.BlankLine | frost-codegen/src/main.rs:119-120 | a blank line gives no field |
| LineCodegen.ConvertFieldLine | frost-codegen/src/main.rs:122-153 | `type[] name...` gives a field with the mapped type (a built-in's Rust type or the name itself), the name cut at `=` or `"`, and the array flag |
| LineCodegen.DataOffsetExample | frost-codegen/src/main.rs:303-309 | `uint32 data_offset` followed by anything gives a u32 field `data_offset` |
| LineCodegen.StampExample | frost-codegen/src/main.rs:311-317 | `time stamp` gives a frost time field |
| LineCodegen.DurExample | frost-codegen/src/main.rs:319-325 | `duration dur` gives a frost duration field |
| LineCodegen.ConstDataOffsetExample | frost-codegen/src/main.rs:328-334 | `uint32 data_offset=...` gives a u32 field `data_offset` |
| LineCodegen.NpiExample | frost-codegen/src/main.rs:336-342 | `float32 npi=...` gives an f32 field `npi` |
| LineCodegen.FooExample | frost-codegen/src/main.rs:344-358 | `string FOO=...` gives a String field `FOO` |
| LineCodegen.ArrayDataExample | frost-codegen/src/main.rs:361-367 | `uint32[] data` gives a u32 array field |
| LineCodegen.WideArrayDataExample | frost-codegen/src/main.rs:369-375 | widely spaced `int64[] data` gives an i64 array field |
| LineCodegen.SkippedLineExamples | frost-codegen/src/main.rs:378-379 | a comment line and a single space give no field |
| LineCodegen.MsgFieldsAppend | frost-codegen/src/main.rs:75-88 | the fields of joined line lists are the fields of each list, in order |
| LineCodegen.MembersRoundTrip | frost-codegen/src/main.rs:95-106 | the emitted members read back as the fields, with `Vec<...>` for arrays |
| LineCodegen.DefinitionRoundTrip | frost-codegen/src/main.rs:90-109 | an emitted struct definition reads back as its name and fields |

## Left out

- Reading from files and streams (`from_file`, `from_reader`, `Read`/`Seek`): a file is a byte sequence and a cursor is a position. A seek past the end is allowed, and the next read fails.
- lz4 decompression is a function parameter of `Chunks.ChunkBytes`. The lz4 frame format itself is not modelled.
- Message instantiation through serde (`MessageView::instantiate`), the `Display` impls, and `as_datetime` (chrono): they are formatting and deserialisation outside the reader's logic.
- Floating-point output: none of the modelled operations computes with floats.
- The command-line tools (`frost.rs`, `frostinfo.rs`, `bin.rs`), `build.rs` and the benches: I/O only.
- The codegen driver: `write_all`, `get_mods_and_msgs`, `get_package_name`, `fmt_file`, `run`, and the message-definition XML. These are filesystem and rustfmt work.
- The `eprintln!`/`println!` warnings in the record loop and in the codegen driver.
- `io::Error` messages: only the error kind is kept.
- Text fields are kept as the header's bytes. Both readers turn compression, topic, type, md5sum, message_definition and callerid into strings with `String::from_utf8_lossy` (frost/src/lib.rs:238, 386, 453-458; src/lib.rs:175, 215, 262-263), which replaces each invalid UTF-8 sequence with U+FFFD. Every property that mentions these fields therefore matches the source only when they are valid UTF-8. For example, topics `[0xFF]` and `[0xFE]` are two keys in Summary.ConnectionIdsBySpec and Topics.TopicsSpec but one key in the source's topic maps.
- RustEmit.ConstValue: a string constant is stated to read back only when it holds no backslash, because lib.rs escapes only quotes; RustEmit.ConstValueFixed is the corrected emitter (see Findings).
- RustEmit.ConstDeclRoundTrip: the string clause holds only for values without a backslash, for the same reason.
- Headers.ChunkHeaderFrom: returns the compression bytes as stored, not their lossy UTF-8 decoding.
- Headers.ConnectionHeaderFrom: returns the topic bytes as stored, not their lossy UTF-8 decoding.
- Headers.ConnectionDataFrom: returns type, md5sum, message_definition and callerid as stored bytes, not their lossy UTF-8 decoding.
- Legacy.ChunkHeaderFrom: returns the compression bytes as stored, not their lossy UTF-8 decoding.
- Legacy.ConnectionHeaderFrom: returns the topic bytes as stored, not their lossy UTF-8 decoding.
- Legacy.ConnectionDataFrom: returns md5sum, message_definition and callerid as stored bytes, not their lossy UTF-8 decoding.
- Hash-set and hash-map iteration order is unspecified in Rust. The model visits connection ids in ascending order and keeps compression entries in first-use order before the sort by size; it does not state how ties in that sort are ordered. Every stated property holds for any order except where it names that order.
- `src/util/query.rs`: it does not compile (its iterator has no item type and `next` is `todo!()`); `frost/src/util/query.rs` supersedes it.
- `Bag::from` of `src/lib.rs` ends in `todo!()`, and its `parse_records` and `parse_record` only print. `Bag` is absent from `frost/src/lib.rs`; `BagIter` works over a map of chunk bytes instead.
- The chumsky parser's error recovery and error messages. The model parses to a statement list and stops where the repetition stops.
- Text.Lower: Unicode `to_lowercase` is modelled for ASCII only, the only case in the type names it is applied to.
- RustEmit.Unescape: reads only the simple Rust escapes (`\\`, `\"`, `\n`, `\t`, `\r`, `\0`, `\'`). Unicode and byte escapes are not needed for the round trips.
- RustEmit.BuiltinsKinds: states the kind of each built-in mapping, not that there are exactly 17 entries.
- LineCodegen.ConvertLine: requires `Convertible` (at least two words, or no field at all). The source panics on a line with a single non-comment word.
- `RosMsg::new` takes the struct name from the file stem; in the model the name is a parameter of the emitters.
- LineCodegen.DefinitionRoundTrip: requires a struct name without spaces, field names without `:`, field types without `,`, and no non-array field whose type is itself a `Vec<…>`. Without these the emitted text does not determine the fields.
- MsgGrammar.SkipWhitespace, MsgGrammar.Comment, MsgGrammar.Package, MsgGrammar.Brackets, MsgGrammar.TypeAt, MsgGrammar.ParseStatement: their own contracts only bound the position. What they parse is stated by the lemmas in the table.
- Records.ParseChunk: a chunk's positions are `nat` rather than `u64`. Offsets in a file cannot reach 2^64.
- RosTime.FromBytes: fails with BufferTooSmall on fewer than 8 bytes. In the source, `Time::from` returns an `io::Error` (frost/src/util/time.rs:64-68), and its callers turn that back into a `ParseError` with `?` (for example frost/src/lib.rs:305-306 and 575). The `From` conversions involved are not part of this model, so the kind BufferTooSmall is assumed; it reaches HeaderLoop.Decode and Headers.IndexDataFrom through this function.

## Findings

| source | as written | input that shows it | evidently intended | confidence | as-written member | corrected member |
|---|---|---|---|---|---|---|
| frost/src/util/query.rs:110 | `BagIter::new` unwraps the index entries of every selected connection id | a bag with a connection record but no index-data record for it, queried with `Query::all()` | such a connection contributes no messages | not executed | Queries.UnindexedConnectionPanics | Queries.EntriesSpec |
| frost-codegen/src/lib.rs:138 | string constants are emitted with only `"` escaped | the constant value `C:\` (the literal is left unterminated) or `\n` (it reads back as a newline) | the emitted literal denotes the original string | not executed | RustEmit.StringConstWithTrailingBackslash | RustEmit.ConstValueFixed |
