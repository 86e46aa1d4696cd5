/**
 * The record stream of a bag (frost/src/lib.rs `parse_records` and the
 * per-record helpers it calls), read from an in-memory file with an explicit
 * cursor, and the catalog built from it once the stream ends.
 */
module Records {
  import opened Wrappers
  import opened Errors
  import opened Bytes
  import opened Parsing
  import opened RosTime
  import opened Fields
  import opened HeaderLoop
  import opened Headers

  // ---------------------------------------------------- fixed-width entries

  /** `windows(12).step_by(12)` over index data, each window read as an entry. */
  function IndexEntries(data: seq<byte>, chunkPos: nat, conn: u32): (r: seq<IndexEntry>)
    ensures |r| == |data| / 12
    ensures forall k | 0 <= k < |r| :: IndexDataFrom(data[12 * k..12 * k + 12], chunkPos, conn) == Ok(r[k])
    ensures forall e | e in r :: e.connectionId == conn && e.chunkPos == chunkPos
    decreases |data|
  {
    if |data| < 12 then []
    else
      var e := IndexDataFrom(data[..12], chunkPos, conn).value;
      var rest := IndexEntries(data[12..], chunkPos, conn);
      assert forall k | 1 <= k < |rest| + 1 :: data[12 * k..12 * k + 12] == data[12..][12 * (k - 1)..12 * (k - 1) + 12];
      [e] + rest
  }

  /** `windows(8).step_by(8)` over chunk-info data, each window read as an entry. */
  function ChunkInfoEntries(data: seq<byte>): (r: seq<ChunkInfoData>)
    ensures |r| == |data| / 8
    ensures forall k | 0 <= k < |r| :: ChunkInfoDataFrom(data[8 * k..8 * k + 8]) == Ok(r[k])
    decreases |data|
  {
    if |data| < 8 then []
    else
      var e := ChunkInfoDataFrom(data[..8]).value;
      var rest := ChunkInfoEntries(data[8..]);
      assert forall k | 1 <= k < |rest| + 1 :: data[8 * k..8 * k + 8] == data[8..][8 * (k - 1)..8 * (k - 1) + 8];
      [e] + rest
  }

  /** The bytes of a list of index entries. */
  function EncodeIndexEntries(es: seq<IndexEntry>): (r: seq<byte>)
    ensures |r| == 12 * |es|
  {
    if |es| == 0 then [] else EncodeIndexEntry(es[0].time, es[0].offset) + EncodeIndexEntries(es[1..])
  }

  /** Index data written for one connection and chunk reads back entry for entry. */
  lemma {:induction false} IndexEntriesRoundTrip(es: seq<IndexEntry>, chunkPos: nat, conn: u32)
    requires forall e | e in es :: e.chunkPos == chunkPos && e.connectionId == conn
    ensures IndexEntries(EncodeIndexEntries(es), chunkPos, conn) == es
  {
    if |es| > 0 {
      var data := EncodeIndexEntries(es);
      var head := EncodeIndexEntry(es[0].time, es[0].offset);
      assert data[..12] == head;
      assert data[12..] == EncodeIndexEntries(es[1..]);
      EntriesRoundTrip(es[0], ChunkInfoData(0, 0));
      IndexEntriesRoundTrip(es[1..], chunkPos, conn);
      assert es == [es[0]] + es[1..];
    }
  }

  /** The bytes of a list of chunk-info entries. */
  function EncodeChunkInfoEntries(ds: seq<ChunkInfoData>): (r: seq<byte>)
    ensures |r| == 8 * |ds|
  {
    if |ds| == 0 then [] else EncodeChunkInfoData(ds[0]) + EncodeChunkInfoEntries(ds[1..])
  }

  /** Chunk-info data written entry by entry reads back entry for entry. */
  lemma {:induction false} ChunkInfoEntriesRoundTrip(ds: seq<ChunkInfoData>)
    ensures ChunkInfoEntries(EncodeChunkInfoEntries(ds)) == ds
  {
    if |ds| > 0 {
      var data := EncodeChunkInfoEntries(ds);
      assert data[..8] == EncodeChunkInfoData(ds[0]);
      assert data[8..] == EncodeChunkInfoEntries(ds[1..]);
      EntriesRoundTrip(IndexEntry(0, 0, ZERO, 0), ds[0]);
      ChunkInfoEntriesRoundTrip(ds[1..]);
      assert ds == [ds[0]] + ds[1..];
    }
  }

  // ---------------------------------------------------------- record helpers

  /** A chunk-info record: its header and its per-connection message counts. */
  datatype ChunkInfo = ChunkInfo(header: ChunkInfoHeaderRecord, data: seq<ChunkInfoData>)

  /**
   * `parse_bag_header`: the header, then a data length whose bytes are skipped.
   * `c` is the cursor just after the header; the result holds the cursor after
   * the skipped data, which may lie past the end of the file.
   */
  function ParseBagHeader(header: seq<byte>, file: seq<byte>, c: nat): (r: Result<(BagHeaderRecord, nat), ParseError>)
    ensures r.Ok? <==> BagHeaderFrom(header).Ok? && BagHeaderFrom(header).value.indexPos != 0 && c + 4 <= |file|
    ensures r.Ok? ==> r.value.0 == BagHeaderFrom(header).value && r.value.1 == c + 4 + LeValue(file[c..c + 4])
    ensures BagHeaderFrom(header).Ok? && BagHeaderFrom(header).value.indexPos == 0 ==> r == Err(UnindexedBag)
    ensures BagHeaderFrom(header).Ok? && BagHeaderFrom(header).value.indexPos != 0 && c + 4 > |file|
            ==> r == Err(UnexpectedEOF)
  {
    var h :- BagHeaderFrom(header);
    if h.indexPos == 0 then Err(UnindexedBag)
    else if c + 4 > |file| then Err(UnexpectedEOF)
    else Ok((h, c + 4 + LeValue(file[c..c + 4])))
  }

  /**
   * `parse_chunk`: the data length comes first, then the header; the chunk's
   * data starts right after the length and is skipped.
   */
  function ParseChunk(header: seq<byte>, file: seq<byte>, pos: nat, c: nat): (r: Result<(ChunkHeaderRecord, nat), ParseError>)
    ensures c + 4 > |file| ==> r == Err(UnexpectedEOF)
    ensures r.Ok? ==> && c + 4 <= |file|
                      && r.value.0.headerPos == pos
                      && r.value.0.dataPos == c + 4
                      && r.value.0.compressedSize == LeValue(file[c..c + 4])
                      && r.value.1 == c + 4 + r.value.0.compressedSize
    ensures c + 4 <= |file| ==> (r.Ok? <==> ParseHeader(ChunkHeaderLayout, header).Ok?
                                            && ChunkHeaderFrom(header, pos, c + 4, 0).Ok?)
  {
    if c + 4 > |file| then Err(UnexpectedEOF)
    else
      var dataLen := LeValue(file[c..c + 4]);
      LeValueBound(file[c..c + 4]);
      assert Pow256(4) == 0x1_0000_0000;
      var ch :- ChunkHeaderFrom(header, pos, c + 4, dataLen);
      Ok((ch, c + 4 + dataLen))
  }

  /**
   * `parse_index`: the entries of one index data record, which must number
   * exactly the header's `count`.
   */
  function ParseIndex(header: seq<byte>, file: seq<byte>, c: nat, chunkPos: nat)
    : (r: Result<(u32, seq<IndexEntry>, nat), ParseError>)
    ensures r.Ok? ==> && IndexDataHeaderFrom(header).Ok?
                      && GetLengthedBytes(file, c).Ok?
                      && var h := IndexDataHeaderFrom(header).value;
                      && var data := GetLengthedBytes(file, c).value;
                      && r.value.0 == h.connectionId
                      && |r.value.1| == h.count == |data.bytes| / 12
                      && r.value.1 == IndexEntries(data.bytes, chunkPos, h.connectionId)
                      && r.value.2 == data.next
    ensures r.Ok? <==> && IndexDataHeaderFrom(header).Ok?
                       && GetLengthedBytes(file, c).Ok?
                       && |GetLengthedBytes(file, c).value.bytes| / 12 == IndexDataHeaderFrom(header).value.count
    ensures IndexDataHeaderFrom(header).Err? ==> r == Err(IndexDataHeaderFrom(header).error)
    ensures IndexDataHeaderFrom(header).Ok? && GetLengthedBytes(file, c).Err?
            ==> r == Err(GetLengthedBytes(file, c).error)
    ensures IndexDataHeaderFrom(header).Ok? && GetLengthedBytes(file, c).Ok?
            && |GetLengthedBytes(file, c).value.bytes| / 12 != IndexDataHeaderFrom(header).value.count
            ==> r == Err(MissingRecord)
  {
    var h :- IndexDataHeaderFrom(header);
    var data :- GetLengthedBytes(file, c);
    var entries := IndexEntries(data.bytes, chunkPos, h.connectionId);
    if |entries| != h.count then Err(MissingRecord)
    else Ok((h.connectionId, entries, data.next))
  }

  /**
   * `parse_chunk_info`: the entries of one chunk-info record, which must number
   * exactly the header's connection count.
   */
  function ParseChunkInfo(header: seq<byte>, file: seq<byte>, c: nat): (r: Result<(ChunkInfo, nat), ParseError>)
    ensures r.Ok? ==> && ChunkInfoHeaderFrom(header).Ok?
                      && GetLengthedBytes(file, c).Ok?
                      && var h := ChunkInfoHeaderFrom(header).value;
                      && var data := GetLengthedBytes(file, c).value;
                      && r.value.0.header == h
                      && |r.value.0.data| == h.connectionCount == |data.bytes| / 8
                      && r.value.0.data == ChunkInfoEntries(data.bytes)
                      && r.value.1 == data.next
    ensures r.Ok? <==> && ChunkInfoHeaderFrom(header).Ok?
                       && GetLengthedBytes(file, c).Ok?
                       && |GetLengthedBytes(file, c).value.bytes| / 8 == ChunkInfoHeaderFrom(header).value.connectionCount
    ensures ChunkInfoHeaderFrom(header).Err? ==> r == Err(ChunkInfoHeaderFrom(header).error)
    ensures ChunkInfoHeaderFrom(header).Ok? && GetLengthedBytes(file, c).Err?
            ==> r == Err(GetLengthedBytes(file, c).error)
    ensures ChunkInfoHeaderFrom(header).Ok? && GetLengthedBytes(file, c).Ok?
            && |GetLengthedBytes(file, c).value.bytes| / 8 != ChunkInfoHeaderFrom(header).value.connectionCount
            ==> r == Err(MissingRecord)
  {
    var h :- ChunkInfoHeaderFrom(header);
    var data :- GetLengthedBytes(file, c);
    var entries := ChunkInfoEntries(data.bytes);
    if |entries| != h.connectionCount then Err(MissingRecord)
    else Ok((ChunkInfo(h, entries), data.next))
  }

  /** `parse_connection`: the connection header, then its data. */
  function ParseConnection(header: seq<byte>, file: seq<byte>, c: nat): (r: Result<(ConnectionData, nat), ParseError>)
    ensures r.Ok? ==> && ConnectionHeaderFrom(header).Ok?
                      && GetLengthedBytes(file, c).Ok?
                      && var h := ConnectionHeaderFrom(header).value;
                      && var data := GetLengthedBytes(file, c).value;
                      && ConnectionDataFrom(data.bytes, h.connectionId, h.topic) == Ok(r.value.0)
                      && r.value.0.connectionId == h.connectionId && r.value.0.topic == h.topic
                      && r.value.1 == data.next
    ensures r.Ok? <==> && ConnectionHeaderFrom(header).Ok?
                       && GetLengthedBytes(file, c).Ok?
                       && ConnectionDataFrom(GetLengthedBytes(file, c).value.bytes,
                                             ConnectionHeaderFrom(header).value.connectionId,
                                             ConnectionHeaderFrom(header).value.topic).Ok?
    ensures ConnectionHeaderFrom(header).Err? ==> r == Err(ConnectionHeaderFrom(header).error)
    ensures ConnectionHeaderFrom(header).Ok? && GetLengthedBytes(file, c).Err?
            ==> r == Err(GetLengthedBytes(file, c).error)
    ensures ConnectionHeaderFrom(header).Ok? && GetLengthedBytes(file, c).Ok? ==>
              var h := ConnectionHeaderFrom(header).value;
              var d := ConnectionDataFrom(GetLengthedBytes(file, c).value.bytes, h.connectionId, h.topic);
              d.Err? ==> r == Err(d.error)
  {
    var h :- ConnectionHeaderFrom(header);
    var data :- GetLengthedBytes(file, c);
    var conn :- ConnectionDataFrom(data.bytes, h.connectionId, h.topic);
    Ok((conn, data.next))
  }

  /**
   * An index data record written for a connection's entries in one chunk, its
   * data framed by a 4-byte length inside any bytes, reads back as those
   * entries, with the cursor just after the data.
   */
  lemma ParseIndexRoundTrip(h: IndexDataHeaderRecord, es: seq<IndexEntry>, chunkPos: nat,
                            pre: seq<byte>, post: seq<byte>)
    requires forall e | e in es :: e.chunkPos == chunkPos && e.connectionId == h.connectionId
    requires h.count == |es| && 12 * |es| < 0x1_0000_0000
    ensures var data := EncodeIndexEntries(es);
            var r := ParseIndex(EncodeFields(IndexDataHeaderFields(h)), pre + LeBytes(|data|, 4) + data + post, |pre|, chunkPos);
            && r.Ok?
            && r.value.0 == h.connectionId
            && r.value.1 == es
            && r.value.2 == |pre| + 4 + 12 * |es|
  {
    var data := EncodeIndexEntries(es);
    GetLengthedBytesRoundTrip(pre, data, post);
    ParseIndexOfBlock(h, es, chunkPos, pre + LeBytes(|data|, 4) + data + post, |pre|);
  }

  /** A data block holding a connection's written entries reads back as those entries. */
  lemma ParseIndexOfBlock(h: IndexDataHeaderRecord, es: seq<IndexEntry>, chunkPos: nat, file: seq<byte>, pos: nat)
    requires forall e | e in es :: e.chunkPos == chunkPos && e.connectionId == h.connectionId
    requires h.count == |es|
    requires GetLengthedBytes(file, pos) == Ok(Lengthed(EncodeIndexEntries(es), pos + 4 + 12 * |es|))
    ensures var r := ParseIndex(EncodeFields(IndexDataHeaderFields(h)), file, pos, chunkPos);
            && r.Ok?
            && r.value.0 == h.connectionId
            && r.value.1 == es
            && r.value.2 == pos + 4 + 12 * |es|
  {
    IndexDataHeaderRoundTrip(h);
    IndexEntriesRoundTrip(es, chunkPos, h.connectionId);
  }

  /**
   * A chunk-info record written for a chunk's per-connection counts reads
   * back as its header and those counts, with the cursor just after the data.
   */
  lemma ParseChunkInfoRoundTrip(h: ChunkInfoHeaderRecord, ds: seq<ChunkInfoData>, pre: seq<byte>, post: seq<byte>)
    requires h.connectionCount == |ds| && 8 * |ds| < 0x1_0000_0000
    ensures var data := EncodeChunkInfoEntries(ds);
            var r := ParseChunkInfo(EncodeFields(ChunkInfoHeaderFields(h)), pre + LeBytes(|data|, 4) + data + post, |pre|);
            && r.Ok?
            && r.value.0 == ChunkInfo(h, ds)
            && r.value.1 == |pre| + 4 + 8 * |ds|
  {
    var data := EncodeChunkInfoEntries(ds);
    GetLengthedBytesRoundTrip(pre, data, post);
    ParseChunkInfoOfBlock(h, ds, pre + LeBytes(|data|, 4) + data + post, |pre|);
  }

  lemma ParseChunkInfoOfBlock(h: ChunkInfoHeaderRecord, ds: seq<ChunkInfoData>, file: seq<byte>, pos: nat)
    requires h.connectionCount == |ds|
    requires GetLengthedBytes(file, pos) == Ok(Lengthed(EncodeChunkInfoEntries(ds), pos + 4 + 8 * |ds|))
    ensures var r := ParseChunkInfo(EncodeFields(ChunkInfoHeaderFields(h)), file, pos);
            && r.Ok?
            && r.value.0 == ChunkInfo(h, ds)
            && r.value.1 == pos + 4 + 8 * |ds|
  {
    ChunkInfoHeaderRoundTrip(h);
    ChunkInfoEntriesRoundTrip(ds);
  }

  /** Every text of a connection fits a short header field. */
  predicate ShortConnection(c: ConnectionData) {
    && |c.topic| < 0x1000 && |c.dataType| < 0x1000 && |c.md5sum| < 0x1000 && |c.messageDefinition| < 0x1000
    && (c.callerId.Some? ==> |c.callerId.value| < 0x1000)
  }

  /** The connection header written for a connection. */
  function ConnectionHeaderBytes(c: ConnectionData): seq<byte> {
    EncodeFields(ConnectionHeaderFields(ConnectionHeaderRecord(c.connectionId, c.topic)))
  }

  /** The connection data written for a connection, with `dataTopic` in its own `topic` field. */
  function ConnectionDataBytes(c: ConnectionData, latchingValue: seq<byte>, dataTopic: seq<byte>): seq<byte> {
    EncodeFields(ConnectionDataFields(c.(topic := dataTopic), latchingValue))
  }

  /**
   * A connection record, its header written for `c` and its data block framed
   * by a 4-byte length inside any bytes, reads back as `c`, with the cursor
   * just after the data. The data's own `topic` field may differ: it is ignored.
   */
  lemma ParseConnectionRoundTrip(c: ConnectionData, latchingValue: seq<byte>, dataTopic: seq<byte>,
                                 pre: seq<byte>, post: seq<byte>)
    requires ShortConnection(c) && |dataTopic| < 0x1000 && |latchingValue| < 0x1000
    requires c.latching <==> latchingValue == One
    ensures var dat := ConnectionDataBytes(c, latchingValue, dataTopic);
            var r := ParseConnection(ConnectionHeaderBytes(c), pre + LeBytes(|dat|, 4) + dat + post, |pre|);
            && r.Ok?
            && r.value.0 == c
            && r.value.1 == |pre| + 4 + |dat|
  {
    var dat := ConnectionDataBytes(c, latchingValue, dataTopic);
    EncodeFieldsShort(ConnectionDataFields(c.(topic := dataTopic), latchingValue));
    GetLengthedBytesRoundTrip(pre, dat, post);
    ParseConnectionOfBlock(c, latchingValue, dataTopic, pre + LeBytes(|dat|, 4) + dat + post, |pre|);
  }

  /** A data block holding a connection's written data reads back as that connection. */
  lemma ParseConnectionOfBlock(c: ConnectionData, latchingValue: seq<byte>, dataTopic: seq<byte>,
                               file: seq<byte>, pos: nat)
    requires ShortConnection(c) && |dataTopic| < 0x1000 && |latchingValue| < 0x1000
    requires c.latching <==> latchingValue == One
    requires var dat := ConnectionDataBytes(c, latchingValue, dataTopic);
             GetLengthedBytes(file, pos) == Ok(Lengthed(dat, pos + 4 + |dat|))
    ensures var r := ParseConnection(ConnectionHeaderBytes(c), file, pos);
            && r.Ok?
            && r.value.0 == c
            && r.value.1 == pos + 4 + |ConnectionDataBytes(c, latchingValue, dataTopic)|
  {
    ConnectionHeaderRoundTrip(ConnectionHeaderRecord(c.connectionId, c.topic));
    ConnectionDataRoundTrip(c, latchingValue, dataTopic);
  }

  // ------------------------------------------------------------ record stream

  /** What the record loop has gathered so far. */
  datatype Scan = Scan(
    bagHeader: Option<BagHeaderRecord>,
    chunkHeaders: seq<ChunkHeaderRecord>,
    chunkInfos: seq<ChunkInfo>,
    connections: seq<ConnectionData>,
    index: map<u32, seq<IndexEntry>>,
    lastChunkPos: Option<nat>)

  const EmptyScan: Scan := Scan(None, [], [], [], map[], None)

  /** `index_data.entry(conn).or_insert_with(Vec::new).append(..)`. */
  function AppendIndex(index: map<u32, seq<IndexEntry>>, conn: u32, entries: seq<IndexEntry>)
    : (r: map<u32, seq<IndexEntry>>)
    ensures r.Keys == index.Keys + {conn}
    ensures r[conn] == (if conn in index then index[conn] else []) + entries
    ensures forall k | k in index && k != conn :: r[k] == index[k]
  {
    index[conn := (if conn in index then index[conn] else []) + entries]
  }

  /**
   * The handling of one record whose header (`header`, opcode `op`) starts at
   * `pos`; `c` is the cursor just after the header.
   */
  function Dispatch(op: OpCode, header: seq<byte>, file: seq<byte>, pos: nat, c: nat, st: Scan)
    : (r: Result<(nat, Scan), ParseError>)
    requires pos < c
    ensures r.Ok? ==> r.value.0 > pos
    ensures op == MessageData ==> r == Err(InvalidOpCode)
    ensures op == IndexDataHeader && st.lastChunkPos.None? ==> r == Err(InvalidBag)
  {
    match op
    case BagHeader =>
      var (h, next) :- ParseBagHeader(header, file, c);
      Ok((next, st.(bagHeader := Some(h))))
    case ChunkHeader =>
      var (ch, next) :- ParseChunk(header, file, pos, c);
      Ok((next, st.(chunkHeaders := st.chunkHeaders + [ch], lastChunkPos := Some(pos))))
    case IndexDataHeader =>
      if st.lastChunkPos.None? then Err(InvalidBag)
      else
        var (conn, entries, next) :- ParseIndex(header, file, c, st.lastChunkPos.value);
        Ok((next, st.(index := AppendIndex(st.index, conn, entries))))
    case ConnectionHeader =>
      var (conn, next) :- ParseConnection(header, file, c);
      Ok((next, st.(connections := st.connections + [conn])))
    case ChunkInfoHeader =>
      var (info, next) :- ParseChunkInfo(header, file, c);
      Ok((next, st.(chunkInfos := st.chunkInfos + [info])))
    case MessageData =>
      Err(InvalidOpCode)
  }

  /**
   * The header of the record at `pos`: its length prefix, then that many
   * bytes, which must lie inside the file. Also returns the cursor after it.
   */
  function RecordHeader(file: seq<byte>, pos: nat): (r: Result<(seq<byte>, nat), ParseError>)
    requires pos + 4 <= |file|
    ensures r.Ok? <==> pos + 4 + LeValue(file[pos..pos + 4]) <= |file|
    ensures r.Ok? ==> && |r.value.0| == LeValue(file[pos..pos + 4])
                      && r.value.1 == pos + 4 + |r.value.0|
                      && r.value.0 == file[pos + 4..(r.value.1)]
    ensures r.Err? ==> r.error == BufferTooSmall
  {
    var len := LeValue(file[pos..pos + 4]);
    if pos + 4 + len > |file| then Err(BufferTooSmall)
    else Ok((file[pos + 4..pos + 4 + len], pos + 4 + len))
  }

  /**
   * One pass of the record loop at `pos`, where at least four bytes remain:
   * the header, its opcode, and the record kind's own handling. Returns the
   * cursor after the record.
   */
  function ReadRecord(file: seq<byte>, pos: nat, st: Scan): (r: Result<(nat, Scan), ParseError>)
    requires pos + 4 <= |file|
    ensures r.Ok? ==> r.value.0 > pos
    ensures RecordHeader(file, pos).Err? ==> r == Err(BufferTooSmall)
    ensures RecordHeader(file, pos).Ok? && ReadHeaderOp(RecordHeader(file, pos).value.0).Err?
            ==> r == Err(ReadHeaderOp(RecordHeader(file, pos).value.0).error)
  {
    var (header, c) :- RecordHeader(file, pos);
    var op :- ReadHeaderOp(header);
    Dispatch(op, header, file, pos, c, st)
  }

  /** The record loop from `pos`: it ends when no four-byte length can be read. */
  function ScanFrom(file: seq<byte>, pos: nat, st: Scan): Result<Scan, ParseError>
    decreases |file| - pos
  {
    if pos + 4 > |file| then Ok(st)
    else
      var (next, st') :- ReadRecord(file, pos, st);
      ScanFrom(file, next, st')
  }

  // ------------------------------------------------------------------ catalog

  /** Everything the reader knows about one chunk once headers and infos are joined. */
  datatype ChunkMetadata = ChunkMetadata(
    compression: seq<byte>,
    uncompressedSize: u32,
    compressedSize: u32,
    headerPos: nat,
    dataPos: nat,
    startTime: Time,
    endTime: Time,
    connectionCount: u32,
    messageCounts: map<u32, u32>)

  /**
   * The bag's metadata: chunks by position, connections and index entries by
   * id, and the size of the bytes it was read from.
   */
  datatype BagMetadata = BagMetadata(
    version: string,
    chunks: map<nat, ChunkMetadata>,
    connections: map<u32, ConnectionData>,
    index: map<u32, seq<IndexEntry>>,
    numBytes: nat)

  /** The first chunk info that describes the chunk at `pos`. */
  function FindInfo(infos: seq<ChunkInfo>, pos: nat): (r: Option<ChunkInfo>)
    ensures r.Some? <==> exists i :: 0 <= i < |infos| && infos[i].header.chunkPos == pos
    ensures r.Some? ==> exists i :: && 0 <= i < |infos| && infos[i] == r.value && r.value.header.chunkPos == pos
                                    && forall j | 0 <= j < i :: infos[j].header.chunkPos != pos
  {
    if |infos| == 0 then None
    else if infos[0].header.chunkPos == pos then Some(infos[0])
    else
      var r := FindInfo(infos[1..], pos);
      assert forall i | 1 <= i < |infos| :: infos[i] == infos[1..][i - 1];
      if r.Some? then
        var i :| && 0 <= i < |infos[1..]| && infos[1..][i] == r.value && r.value.header.chunkPos == pos
                 && forall j | 0 <= j < i :: infos[1..][j].header.chunkPos != pos;
        assert infos[i + 1] == r.value;
        r
      else r
  }

  /** The per-connection message counts of a chunk; a later entry for an id wins. */
  function MessageCounts(data: seq<ChunkInfoData>): (r: map<u32, u32>)
    ensures r.Keys == set k | 0 <= k < |data| :: data[k].connectionId
    ensures forall k | 0 <= k < |data| && LastFor(data, k) :: r[data[k].connectionId] == data[k].count
  {
    if |data| == 0 then map[]
    else
      var last := data[|data| - 1];
      var init := data[..|data| - 1];
      var r := MessageCounts(init)[last.connectionId := last.count];
      assert forall k | 0 <= k < |data| - 1 :: init[k] == data[k];
      assert forall k | 0 <= k < |data| - 1 && LastFor(data, k) :: LastFor(init, k);
      r
  }

  /** No entry after the `k`-th is for the same connection. */
  predicate LastFor(data: seq<ChunkInfoData>, k: nat)
    requires k < |data|
  {
    forall j | k < j < |data| :: data[j].connectionId != data[k].connectionId
  }

  function Metadata(h: ChunkHeaderRecord, info: ChunkInfo): ChunkMetadata {
    ChunkMetadata(h.compression, h.uncompressedSize, h.compressedSize, h.headerPos, h.dataPos,
                  info.header.startTime, info.header.endTime, info.header.connectionCount,
                  MessageCounts(info.data))
  }

  /**
   * The chunk-header ⋈ chunk-info join: each header with an info at its
   * position, keyed by that position (a later header at the same key wins).
   */
  function JoinChunks(headers: seq<ChunkHeaderRecord>, infos: seq<ChunkInfo>): map<nat, ChunkMetadata> {
    if |headers| == 0 then map[]
    else
      var h := headers[|headers| - 1];
      var acc := JoinChunks(headers[..|headers| - 1], infos);
      match FindInfo(infos, h.headerPos)
      case None => acc
      case Some(info) => acc[h.headerPos := Metadata(h, info)]
  }

  /**
   * The join holds exactly the offsets that have both a chunk header and a
   * chunk info, each entry filed under its own header's offset.
   */
  lemma {:induction false} JoinChunksKeys(headers: seq<ChunkHeaderRecord>, infos: seq<ChunkInfo>)
    ensures forall k :: k in JoinChunks(headers, infos) <==>
                          HasChunkAt(headers, k) && FindInfo(infos, k).Some?
    ensures forall k | k in JoinChunks(headers, infos) :: JoinChunks(headers, infos)[k].headerPos == k
  {
    if |headers| > 0 {
      var n := |headers| - 1;
      var init := headers[..n];
      JoinChunksKeys(init, infos);
      forall k | HasChunkAt(init, k) ensures HasChunkAt(headers, k) {
        var j :| 0 <= j < n && init[j].headerPos == k;
        assert headers[j] == init[j];
      }
      forall k | HasChunkAt(headers, k) && k != headers[n].headerPos ensures HasChunkAt(init, k) {
        var j :| 0 <= j < |headers| && headers[j].headerPos == k;
        assert init[j] == headers[j];
      }
      assert HasChunkAt(headers, headers[n].headerPos);
      match FindInfo(infos, headers[n].headerPos)
      case None =>
        assert JoinChunks(headers, infos) == JoinChunks(init, infos);
      case Some(info) =>
        assert JoinChunks(headers, infos) == JoinChunks(init, infos)[headers[n].headerPos := Metadata(headers[n], info)];
    }
  }

  /** The connections by id; a later connection with the same id wins. */
  function ConnectionMap(cs: seq<ConnectionData>): (r: map<u32, ConnectionData>)
    ensures r.Keys == set k | 0 <= k < |cs| :: cs[k].connectionId
    ensures forall id | id in r :: r[id].connectionId == id
    ensures forall id | id in r :: exists k :: 0 <= k < |cs| && cs[k] == r[id]
  {
    if |cs| == 0 then map[]
    else
      var last := cs[|cs| - 1];
      var acc := ConnectionMap(cs[..|cs| - 1]);
      assert forall k | 0 <= k < |cs| - 1 :: cs[..|cs| - 1][k] == cs[k];
      acc[last.connectionId := last]
  }

  /** Each id maps to the last connection carrying it. */
  lemma {:induction false} ConnectionMapLatest(cs: seq<ConnectionData>)
    ensures forall k | 0 <= k < |cs| && Latest(cs, k) :: ConnectionMap(cs)[cs[k].connectionId] == cs[k]
  {
    if |cs| > 0 {
      var init := cs[..|cs| - 1];
      ConnectionMapLatest(init);
      forall k | 0 <= k < |cs| && Latest(cs, k) ensures ConnectionMap(cs)[cs[k].connectionId] == cs[k] {
        if k < |cs| - 1 {
          assert init[k] == cs[k];
          assert Latest(init, k) by {
            forall j | k < j < |init| ensures init[j].connectionId != init[k].connectionId {
              assert init[j] == cs[j];
            }
          }
        }
      }
    }
  }

  /** No connection after the `k`-th has the same id. */
  predicate Latest(cs: seq<ConnectionData>, k: nat)
    requires k < |cs|
  {
    forall j | k < j < |cs| :: cs[j].connectionId != cs[k].connectionId
  }

  /** The checks after the loop, then the catalog. */
  function Finish(st: Scan, version: string): (r: Result<BagMetadata, ParseError>)
    ensures r.Ok? <==> && st.bagHeader.Some?
                       && st.bagHeader.value.chunkCount == |st.chunkHeaders|
                       && st.bagHeader.value.chunkCount == |st.chunkInfos|
                       && st.bagHeader.value.connCount == |st.connections|
    ensures r.Err? ==> r.error == InvalidBag
    ensures r.Ok? ==> && r.value.chunks == JoinChunks(st.chunkHeaders, st.chunkInfos)
                      && r.value.connections == ConnectionMap(st.connections)
                      && r.value.index == st.index
  {
    if st.bagHeader.None? then Err(InvalidBag)
    else
      var h := st.bagHeader.value;
      if h.chunkCount != |st.chunkHeaders| then Err(InvalidBag)
      else if h.chunkCount != |st.chunkInfos| then Err(InvalidBag)
      else if h.connCount != |st.connections| then Err(InvalidBag)
      else Ok(BagMetadata(version, JoinChunks(st.chunkHeaders, st.chunkInfos), ConnectionMap(st.connections), st.index, 0))
  }

  /** `parse_records` over the records that follow the version line. */
  function ParseRecords(file: seq<byte>, version: string): Result<BagMetadata, ParseError> {
    var st :- ScanFrom(file, |Magic|, EmptyScan);
    Finish(st, version)
  }

  /** `BagMetadata::from_bytes`: the version check, then the records. */
  function MetadataFromBytes(file: seq<byte>): (r: Result<BagMetadata, BagError>)
    ensures VersionCheck(file).Err? ==> r == Err(VersionCheck(file).error)
    ensures r.Ok? ==> VersionCheck(file).Ok? && r.value.version == "2.0" && r.value.numBytes == |file|
                      && ParseRecords(file, "2.0") == Ok(r.value.(numBytes := 0))
    ensures VersionCheck(file).Ok? && ParseRecords(file, "2.0").Err?
            ==> r == Err(Parse(ParseRecords(file, "2.0").error))
    ensures r.Ok? <==> VersionCheck(file).Ok? && ParseRecords(file, "2.0").Ok?
  {
    var version :- VersionCheck(file);
    match ParseRecords(file, version)
    case Err(e) => Err(Parse(e))
    case Ok(bag) => Ok(bag.(numBytes := |file|))
  }

  // --------------------------------------------------------- loop invariants

  predicate HasChunkAt(hs: seq<ChunkHeaderRecord>, p: nat) {
    exists k :: 0 <= k < |hs| && hs[k].headerPos == p
  }

  /**
   * What the record loop keeps true: chunk headers in strictly increasing file
   * order, the last chunk seen among them, and every index entry filed under
   * its own connection and pointing at a chunk header that was read.
   */
  predicate ScanInvariant(st: Scan) {
    && (forall i, j | 0 <= i < j < |st.chunkHeaders| :: st.chunkHeaders[i].headerPos < st.chunkHeaders[j].headerPos)
    && (st.lastChunkPos.Some? ==> HasChunkAt(st.chunkHeaders, st.lastChunkPos.value))
    && (forall id | id in st.index :: forall e | e in st.index[id] ::
          e.connectionId == id && HasChunkAt(st.chunkHeaders, e.chunkPos))
  }

  /** Every chunk header read so far starts before `pos`. */
  predicate Before(st: Scan, pos: nat) {
    forall k | 0 <= k < |st.chunkHeaders| :: st.chunkHeaders[k].headerPos < pos
  }

  lemma AppendChunkKeepsInvariant(st: Scan, ch: ChunkHeaderRecord, pos: nat, next: nat)
    requires ScanInvariant(st) && Before(st, pos) && ch.headerPos == pos && next > pos
    ensures var st' := st.(chunkHeaders := st.chunkHeaders + [ch], lastChunkPos := Some(pos));
            ScanInvariant(st') && Before(st', next)
  {
    var hs := st.chunkHeaders;
    var hs' := hs + [ch];
    assert hs'[|hs|].headerPos == pos;
    forall p | HasChunkAt(hs, p) ensures HasChunkAt(hs', p) {
      var k :| 0 <= k < |hs| && hs[k].headerPos == p;
      assert hs'[k] == hs[k];
    }
  }

  lemma AppendIndexKeepsInvariant(st: Scan, conn: u32, entries: seq<IndexEntry>)
    requires ScanInvariant(st) && st.lastChunkPos.Some?
    requires forall e | e in entries :: e.connectionId == conn && e.chunkPos == st.lastChunkPos.value
    ensures ScanInvariant(st.(index := AppendIndex(st.index, conn, entries)))
  {
    var idx := AppendIndex(st.index, conn, entries);
    forall id: u32, e: IndexEntry | id in idx && e in idx[id]
      ensures e.connectionId == id && HasChunkAt(st.chunkHeaders, e.chunkPos)
    {
      if id == conn {
        var old_ := if conn in st.index then st.index[conn] else [];
        assert e in old_ || e in entries;
      }
    }
  }

  /** A step of the loop that, when it succeeds, keeps the invariant. */
  predicate StepKeepsInvariant(r: Result<(nat, Scan), ParseError>) {
    r.Ok? ==> ScanInvariant(r.value.1) && Before(r.value.1, r.value.0)
  }

  lemma DispatchKeepsInvariant(op: OpCode, header: seq<byte>, file: seq<byte>, pos: nat, c: nat, st: Scan)
    requires pos < c
    requires ScanInvariant(st) && Before(st, pos)
    ensures StepKeepsInvariant(Dispatch(op, header, file, pos, c, st))
  {
    var r := Dispatch(op, header, file, pos, c, st);
    if r.Ok? {
      match op
      case ChunkHeader =>
        var (ch, next) := ParseChunk(header, file, pos, c).value;
        AppendChunkKeepsInvariant(st, ch, pos, next);
      case IndexDataHeader =>
        var (conn, entries, next) := ParseIndex(header, file, c, st.lastChunkPos.value).value;
        AppendIndexKeepsInvariant(st, conn, entries);
      case _ =>
    }
  }

  /** One record keeps the loop invariant, and the cursor moves past every chunk header read. */
  lemma ReadRecordKeepsInvariant(file: seq<byte>, pos: nat, st: Scan)
    requires pos + 4 <= |file|
    requires ScanInvariant(st) && Before(st, pos)
    ensures StepKeepsInvariant(ReadRecord(file, pos, st))
  {
    if RecordHeader(file, pos).Ok? {
      var (header, c) := RecordHeader(file, pos).value;
      if ReadHeaderOp(header).Ok? {
        var op := ReadHeaderOp(header).value;
        DispatchKeepsInvariant(op, header, file, pos, c, st);
        assert ReadRecord(file, pos, st) == Dispatch(op, header, file, pos, c, st);
      }
    }
  }

  /** The whole record loop keeps the invariant. */
  lemma {:induction false} ScanFromKeepsInvariant(file: seq<byte>, pos: nat, st: Scan)
    requires ScanInvariant(st) && Before(st, pos)
    ensures ScanFrom(file, pos, st).Ok? ==> ScanInvariant(ScanFrom(file, pos, st).value)
    decreases |file| - pos
  {
    if pos + 4 <= |file| {
      ReadRecordKeepsInvariant(file, pos, st);
      var r := ReadRecord(file, pos, st);
      if r.Ok? {
        assert StepKeepsInvariant(r);
        ScanFromKeepsInvariant(file, r.value.0, r.value.1);
      }
    }
  }

  /**
   * Of a successfully read bag: chunk headers lie at distinct, increasing
   * offsets, and every index entry names its own connection and the offset of
   * a chunk header that precedes it.
   */
  lemma ParseRecordsInvariant(file: seq<byte>)
    ensures ScanFrom(file, |Magic|, EmptyScan).Ok? ==> ScanInvariant(ScanFrom(file, |Magic|, EmptyScan).value)
  {
    ScanFromKeepsInvariant(file, |Magic|, EmptyScan);
  }

  /**
   * With chunk headers at distinct offsets, the joined entry at a header's
   * offset combines that header with the first info for the same offset.
   */
  lemma {:induction false} JoinChunksValue(headers: seq<ChunkHeaderRecord>, infos: seq<ChunkInfo>, j: nat)
    requires forall a, b | 0 <= a < b < |headers| :: headers[a].headerPos != headers[b].headerPos
    requires j < |headers| && FindInfo(infos, headers[j].headerPos).Some?
    ensures headers[j].headerPos in JoinChunks(headers, infos)
    ensures JoinChunks(headers, infos)[headers[j].headerPos]
            == Metadata(headers[j], FindInfo(infos, headers[j].headerPos).value)
  {
    var n := |headers| - 1;
    var init := headers[..n];
    var last := headers[n];
    var acc := JoinChunks(init, infos);
    var p := headers[j].headerPos;
    if j < n {
      assert init[j] == headers[j];
      JoinChunksValue(init, infos, j);
      assert last.headerPos != p;
      match FindInfo(infos, last.headerPos)
      case None =>
        assert JoinChunks(headers, infos) == acc;
      case Some(info) =>
        assert JoinChunks(headers, infos) == acc[last.headerPos := Metadata(last, info)];
    } else {
      assert JoinChunks(headers, infos) == acc[p := Metadata(last, FindInfo(infos, p).value)];
    }
  }

  // -------------------------------------------------------------- a whole bag

  /** The bytes of one record: a length-prefixed header, then length-prefixed data. */
  function EncodeRecord(header: seq<byte>, data: seq<byte>): (r: seq<byte>)
    ensures |r| == 8 + |header| + |data|
  {
    LeBytes(|header|, 4) + header + LeBytes(|data|, 4) + data
  }

  lemma BagHeaderBytesAreShort(h: BagHeaderRecord)
    ensures |EncodeFields(BagHeaderFields(h))| < 100
  {
    var fs := BagHeaderFields(h);
    assert EncodeFields(fs) == EncodeField(fs[0]) + EncodeFields(fs[1..]);
    assert EncodeFields(fs[1..]) == EncodeField(fs[1]) + EncodeFields(fs[2..]);
    assert EncodeFields(fs[2..]) == EncodeField(fs[2]) + EncodeFields(fs[3..]);
    assert EncodeFields(fs[3..]) == EncodeField(fs[3]) + EncodeFields(fs[4..]);
  }

  lemma BagHeaderOpIsRead(h: BagHeaderRecord)
    ensures ReadHeaderOp(EncodeFields(BagHeaderFields(h))) == Ok(BagHeader)
  {
    var fs := BagHeaderFields(h);
    var hdr := EncodeFields(fs);
    assert [] + hdr == hdr;
    SplitFieldsRoundTrip([], fs);
    ReadHeaderOpIsFirstOp(hdr, 0);
    assert FirstOp(fs) == FirstOp(fs[1..]) == FirstOp(fs[2..]) == FirstOp(fs[3..]);
    assert fs[3..][0] == OpField(BagHeader);
  }

  /**
   * A record laid out as a length-prefixed header followed by a zero data
   * length: the header is read whole and the data length reads as zero.
   */
  lemma EmptyDataRecordAt(file: seq<byte>, pos: nat, hdr: seq<byte>)
    requires |hdr| < 0x1_0000_0000
    requires pos + 8 + |hdr| <= |file|
    requires file[pos..pos + 4] == LeBytes(|hdr|, 4)
    requires file[pos + 4..pos + 4 + |hdr|] == hdr
    requires file[pos + 4 + |hdr|..pos + 8 + |hdr|] == LeBytes(0, 4)
    ensures RecordHeader(file, pos) == Ok((hdr, pos + 4 + |hdr|))
    ensures LeValue(file[pos + 4 + |hdr|..pos + 8 + |hdr|]) == 0
  {
    LengthPrefix(|hdr|, file[pos..pos + 4]);
    RecordHeaderAt(file, pos, hdr);
    ZeroLength(file[pos + 4 + |hdr|..pos + 8 + |hdr|]);
  }

  lemma RecordHeaderAt(file: seq<byte>, pos: nat, hdr: seq<byte>)
    requires pos + 4 + |hdr| <= |file|
    requires LeValue(file[pos..pos + 4]) == |hdr|
    requires file[pos + 4..pos + 4 + |hdr|] == hdr
    ensures RecordHeader(file, pos) == Ok((hdr, pos + 4 + |hdr|))
  {
  }

  lemma ZeroLength(s: seq<byte>)
    requires s == LeBytes(0, 4)
    ensures LeValue(s) == 0
  {
    LeValueOfLeBytes(0, 4);
  }

  /** A bag header record with empty data at `pos` is read and the loop moves past it. */
  lemma ReadBagHeaderRecord(file: seq<byte>, pos: nat, hdr: seq<byte>, h: BagHeaderRecord, st: Scan)
    requires pos + 8 + |hdr| <= |file|
    requires RecordHeader(file, pos) == Ok((hdr, pos + 4 + |hdr|))
    requires ReadHeaderOp(hdr) == Ok(BagHeader)
    requires ParseBagHeader(hdr, file, pos + 4 + |hdr|) == Ok((h, pos + 8 + |hdr|))
    ensures ReadRecord(file, pos, st) == Ok((pos + 8 + |hdr|, st.(bagHeader := Some(h))))
  {
  }

  lemma BagHeaderWithEmptyData(hdr: seq<byte>, file: seq<byte>, c: nat, h: BagHeaderRecord)
    requires BagHeaderFrom(hdr) == Ok(h) && h.indexPos != 0
    requires c + 4 <= |file| && LeValue(file[c..c + 4]) == 0
    ensures ParseBagHeader(hdr, file, c) == Ok((h, c + 4))
  {
  }

  /** Where the parts of an encoded record sit in a file that continues with it. */
  lemma RecordSlices(pre: seq<byte>, hdr: seq<byte>, data: seq<byte>)
    ensures var file := pre + EncodeRecord(hdr, data);
            var p := |pre|;
            && file[p..p + 4] == LeBytes(|hdr|, 4)
            && file[p + 4..p + 4 + |hdr|] == hdr
            && file[p + 4 + |hdr|..p + 8 + |hdr|] == LeBytes(|data|, 4)
  {
    var a := LeBytes(|hdr|, 4);
    var z := LeBytes(|data|, 4);
    assert pre + EncodeRecord(hdr, data) == pre + a + hdr + (z + data);
    SliceOfConcat(pre, a, hdr, z + data);
    SliceOfConcat(pre + a, hdr, z, data);
  }

  /**
   * The smallest bag: the version line and one indexed bag header that
   * announces no chunks and no connections, with empty data. It reads as a
   * bag with nothing in it.
   */
  lemma EmptyBagParses(h: BagHeaderRecord)
    requires h.indexPos != 0 && h.connCount == 0 && h.chunkCount == 0
    ensures MetadataFromBytes(Magic + EncodeRecord(EncodeFields(BagHeaderFields(h)), []))
            == Ok(BagMetadata("2.0", map[], map[], map[], |Magic| + 8 + |EncodeFields(BagHeaderFields(h))|))
  {
    var hdr := EncodeFields(BagHeaderFields(h));
    var file := Magic + EncodeRecord(hdr, []);
    VersionCheckAccepts(EncodeRecord(hdr, []));
    EmptyBagScans(h, hdr, file);
  }

  /** The record loop over the smallest bag reads its bag header and stops. */
  lemma EmptyBagScans(h: BagHeaderRecord, hdr: seq<byte>, file: seq<byte>)
    requires h.indexPos != 0 && h.connCount == 0 && h.chunkCount == 0
    requires hdr == EncodeFields(BagHeaderFields(h)) && file == Magic + EncodeRecord(hdr, [])
    ensures ScanFrom(file, |Magic|, EmptyScan) == Ok(EmptyScan.(bagHeader := Some(h)))
  {
    var pos := |Magic|;
    var c := pos + 4 + |hdr|;
    RecordSlices(Magic, hdr, []);
    BagHeaderBytesAreShort(h);
    EmptyDataRecordAt(file, pos, hdr);
    BagHeaderOpIsRead(h);
    BagHeaderRoundTrip(h);
    BagHeaderWithEmptyData(hdr, file, c, h);
    ReadBagHeaderRecord(file, pos, hdr, h, EmptyScan);
    var st := EmptyScan.(bagHeader := Some(h));
    assert ScanFrom(file, pos, EmptyScan) == ScanFrom(file, |file|, st);
  }

  // ------------------------------------------------- a bag with connections

  /** The header and the data block of one record. */
  datatype RecordParts = RecordParts(header: seq<byte>, data: seq<byte>)

  /** Records written one after another. */
  function Framed(ps: seq<RecordParts>): (r: seq<byte>)
    ensures |ps| > 0 ==> r == EncodeRecord(ps[0].header, ps[0].data) + Framed(ps[1..])
  {
    if |ps| == 0 then [] else EncodeRecord(ps[0].header, ps[0].data) + Framed(ps[1..])
  }

  /** A record that the loop reads as connection `c`. */
  predicate ReadsAs(p: RecordParts, c: ConnectionData) {
    && |p.header| < 0x1_0000_0000 && |p.data| < 0x1_0000_0000
    && ReadHeaderOp(p.header) == Ok(ConnectionHeader)
    && ConnectionHeaderFrom(p.header) == Ok(ConnectionHeaderRecord(c.connectionId, c.topic))
    && ConnectionDataFrom(p.data, c.connectionId, c.topic) == Ok(c)
  }

  /** Record by record, `ps` reads as the connections `cs`. */
  predicate AllReadAs(ps: seq<RecordParts>, cs: seq<ConnectionData>) {
    |ps| == |cs| && (|ps| > 0 ==> ReadsAs(ps[0], cs[0]) && AllReadAs(ps[1..], cs[1..]))
  }

  /** The latching value a writer stores: "1" for a latched connection, "0" otherwise. */
  function LatchingBytes(c: ConnectionData): seq<byte> {
    if c.latching then One else [0x30]
  }

  /** A connection record as written: the connection header, then its data carrying the same topic. */
  function WrittenConnection(c: ConnectionData): RecordParts {
    RecordParts(ConnectionHeaderBytes(c), ConnectionDataBytes(c, LatchingBytes(c), c.topic))
  }

  /** The connection records written for `cs`, in order. */
  function WrittenConnections(cs: seq<ConnectionData>): (r: seq<RecordParts>)
    ensures |r| == |cs|
  {
    if |cs| == 0 then [] else [WrittenConnection(cs[0])] + WrittenConnections(cs[1..])
  }

  /** A written connection record reads back as its connection. */
  lemma WrittenConnectionReads(c: ConnectionData)
    requires ShortConnection(c)
    ensures ReadsAs(WrittenConnection(c), c)
  {
    EncodeFieldsShort(ConnectionHeaderFields(ConnectionHeaderRecord(c.connectionId, c.topic)));
    EncodeFieldsShort(ConnectionDataFields(c.(topic := c.topic), LatchingBytes(c)));
    ConnectionOpIsRead(c);
    ConnectionHeaderRoundTrip(ConnectionHeaderRecord(c.connectionId, c.topic));
    ConnectionDataRoundTrip(c, LatchingBytes(c), c.topic);
  }

  lemma {:induction false} WrittenConnectionsRead(cs: seq<ConnectionData>)
    requires forall c | c in cs :: ShortConnection(c)
    ensures AllReadAs(WrittenConnections(cs), cs)
  {
    if |cs| > 0 {
      WrittenConnectionReads(cs[0]);
      WrittenConnectionsRead(cs[1..]);
      assert WrittenConnections(cs)[1..] == WrittenConnections(cs[1..]);
    }
  }

  lemma ConnectionOpIsRead(c: ConnectionData)
    requires |c.topic| < 0x1000
    ensures ReadHeaderOp(ConnectionHeaderBytes(c)) == Ok(ConnectionHeader)
  {
    var fs := ConnectionHeaderFields(ConnectionHeaderRecord(c.connectionId, c.topic));
    var hdr := EncodeFields(fs);
    ConnectionHeaderFieldsEncodable(c);
    ConnectionHeaderFirstOp(c);
    assert [] + hdr == hdr;
    SplitFieldsRoundTrip([], fs);
    ReadHeaderOpIsFirstOp(hdr, 0);
  }

  lemma ConnectionHeaderFieldsEncodable(c: ConnectionData)
    requires |c.topic| < 0x1000
    ensures var fs := ConnectionHeaderFields(ConnectionHeaderRecord(c.connectionId, c.topic));
            forall k | 0 <= k < |fs| :: Encodable(fs[k])
  {
  }

  lemma ConnectionHeaderFirstOp(c: ConnectionData)
    ensures FirstOp(ConnectionHeaderFields(ConnectionHeaderRecord(c.connectionId, c.topic))) == Ok(ConnectionHeader)
  {
    var fs := ConnectionHeaderFields(ConnectionHeaderRecord(c.connectionId, c.topic));
    assert FirstOp(fs) == FirstOp(fs[1..]) == FirstOp(fs[2..]);
    assert fs[2..][0] == OpField(ConnectionHeader);
  }

  /**
   * Where the header and the data block of a record written at `pos` sit:
   * the header ends at `q`, the data at `next`.
   */
  lemma RecordBlocks(file: seq<byte>, pos: nat, p: RecordParts, q: nat, next: nat)
    requires |p.header| < 0x1_0000_0000 && |p.data| < 0x1_0000_0000
    requires q == pos + 4 + |p.header| && next == q + 4 + |p.data| <= |file|
    requires file[pos..next] == EncodeRecord(p.header, p.data)
    ensures RecordHeader(file, pos) == Ok((p.header, q))
    ensures GetLengthedBytes(file, q) == Ok(Lengthed(p.data, next))
  {
    var lh, ld := LeBytes(|p.header|, 4), LeBytes(|p.data|, 4);
    assert EncodeRecord(p.header, p.data) == (lh + p.header) + (ld + p.data);
    SplitWindow(file, pos, lh + p.header, ld + p.data);
    SplitWindow(file, pos, lh, p.header);
    SplitWindow(file, q, ld, p.data);
    LengthPrefix(|p.header|, lh);
    LengthPrefix(|p.data|, ld);
    RecordHeaderAt(file, pos, p.header);
    GetLengthedBytesAt(file, q, p.data);
  }

  /** Once a record's header and opcode are read, the record is what its opcode's handling makes of it. */
  lemma ReadRecordIsDispatch(file: seq<byte>, pos: nat, hdr: seq<byte>, q: nat, op: OpCode, st: Scan)
    requires pos + 4 <= |file| && q == pos + 4 + |hdr|
    requires RecordHeader(file, pos) == Ok((hdr, q))
    requires ReadHeaderOp(hdr) == Ok(op)
    ensures ReadRecord(file, pos, st) == Dispatch(op, hdr, file, pos, q, st)
  {
  }

  lemma DispatchConnection(hdr: seq<byte>, file: seq<byte>, pos: nat, q: nat, c: ConnectionData, next: nat, st: Scan)
    requires pos < q
    requires var r := ParseConnection(hdr, file, q); r.Ok? && r.value.0 == c && r.value.1 == next
    ensures Dispatch(ConnectionHeader, hdr, file, pos, q, st) == Ok((next, st.(connections := st.connections + [c])))
  {
  }

  /** A record at `pos` that reads as connection `c` is read whole and `c` appended. */
  lemma ReadConnectionRecord(file: seq<byte>, pos: nat, p: RecordParts, c: ConnectionData, next: nat, st: Scan)
    requires ReadsAs(p, c)
    requires next == pos + 8 + |p.header| + |p.data| <= |file|
    requires file[pos..next] == EncodeRecord(p.header, p.data)
    ensures ReadRecord(file, pos, st) == Ok((next, st.(connections := st.connections + [c])))
  {
    var q := pos + 4 + |p.header|;
    ConnectionRecordFacts(file, pos, p, c, q, next);
    ReadConnectionOf(file, pos, p.header, q, c, next, st);
  }

  lemma ConnectionRecordFacts(file: seq<byte>, pos: nat, p: RecordParts, c: ConnectionData, q: nat, next: nat)
    requires ReadsAs(p, c)
    requires q == pos + 4 + |p.header| && next == q + 4 + |p.data| <= |file|
    requires file[pos..next] == EncodeRecord(p.header, p.data)
    ensures RecordHeader(file, pos) == Ok((p.header, q))
    ensures var r := ParseConnection(p.header, file, q); r.Ok? && r.value.0 == c && r.value.1 == next
  {
    RecordBlocks(file, pos, p, q, next);
    ParseConnectionOfParts(file, q, p, c, next);
  }

  lemma ReadConnectionOf(file: seq<byte>, pos: nat, hdr: seq<byte>, q: nat, c: ConnectionData, next: nat, st: Scan)
    requires pos + 4 <= |file| && q == pos + 4 + |hdr|
    requires RecordHeader(file, pos) == Ok((hdr, q))
    requires ReadHeaderOp(hdr) == Ok(ConnectionHeader)
    requires var r := ParseConnection(hdr, file, q); r.Ok? && r.value.0 == c && r.value.1 == next
    ensures ReadRecord(file, pos, st) == Ok((next, st.(connections := st.connections + [c])))
  {
    ReadRecordIsDispatch(file, pos, hdr, q, ConnectionHeader, st);
    DispatchConnection(hdr, file, pos, q, c, next, st);
  }

  lemma ParseConnectionOfParts(file: seq<byte>, q: nat, p: RecordParts, c: ConnectionData, next: nat)
    requires ReadsAs(p, c)
    requires next == q + 4 + |p.data|
    requires GetLengthedBytes(file, q) == Ok(Lengthed(p.data, next))
    ensures var r := ParseConnection(p.header, file, q); r.Ok? && r.value.0 == c && r.value.1 == next
  {
  }

  /** One pass of the record loop, then the loop from where that record ends. */
  lemma ScanStep(file: seq<byte>, pos: nat, st: Scan, next: nat, st': Scan)
    requires pos + 4 <= |file| && ReadRecord(file, pos, st) == Ok((next, st'))
    ensures ScanFrom(file, pos, st) == ScanFrom(file, next, st')
  {
  }

  /** Where each of the records `ps` written from `pos` on ends. */
  function Ends(pos: nat, ps: seq<RecordParts>): (r: seq<nat>)
    ensures |r| == |ps|
    decreases |ps|
  {
    if |ps| == 0 then [] else
      var next := pos + 8 + |ps[0].header| + |ps[0].data|;
      [next] + Ends(next, ps[1..])
  }

  /**
   * From `pos` on, the record loop reads the connections `cs` one record at a
   * time, the k-th record ending at `ends[k]`, and the last one at the end of
   * the file.
   */
  /** The record at `pos` reads as connection `c`, appended to `st`, and ends at `next`. */
  predicate ReadsConnectionAt(file: seq<byte>, pos: nat, next: nat, c: ConnectionData, st: Scan)
  {
    pos + 4 <= |file| && ReadRecord(file, pos, st) == Ok((next, st.(connections := st.connections + [c])))
  }

  ghost predicate ReadsChain(file: seq<byte>, pos: nat, ends: seq<nat>, cs: seq<ConnectionData>)
    decreases |cs|
  {
    && |ends| == |cs|
    && (|cs| == 0 ==> pos == |file|)
    && (|cs| > 0 ==>
          && pos + 4 <= |file|
          && (forall st: Scan :: ReadsConnectionAt(file, pos, ends[0], cs[0], st))
          && ReadsChain(file, ends[0], ends[1..], cs[1..]))
  }

  /** Written records that read as `cs` form such a chain. */
  lemma {:induction false} FramedReadsChain(file: seq<byte>, pos: nat, ps: seq<RecordParts>, cs: seq<ConnectionData>)
    requires AllReadAs(ps, cs)
    requires pos + |Framed(ps)| == |file| && file[pos..] == Framed(ps)
    ensures ReadsChain(file, pos, Ends(pos, ps), cs)
    decreases |ps|
  {
    if |ps| > 0 {
      var ends := Ends(pos, ps);
      var next := ends[0];
      EndsTail(pos, ps);
      FramedHead(file, pos, ps, cs, next);
      FramedReadsChain(file, next, ps[1..], cs[1..]);
      ChainCons(file, pos, ends, cs);
    }
  }

  lemma EndsTail(pos: nat, ps: seq<RecordParts>)
    requires |ps| > 0
    ensures Ends(pos, ps)[0] == pos + 8 + |ps[0].header| + |ps[0].data|
    ensures Ends(pos, ps)[1..] == Ends(Ends(pos, ps)[0], ps[1..])
  {
  }

  lemma ChainCons(file: seq<byte>, pos: nat, ends: seq<nat>, cs: seq<ConnectionData>)
    requires |cs| > 0 && |ends| == |cs| && pos + 4 <= |file|
    requires forall st: Scan :: ReadsConnectionAt(file, pos, ends[0], cs[0], st)
    requires ReadsChain(file, ends[0], ends[1..], cs[1..])
    ensures ReadsChain(file, pos, ends, cs)
  {
  }

  /** The first written record reads as the first connection, and the rest follow it. */
  lemma FramedHead(file: seq<byte>, pos: nat, ps: seq<RecordParts>, cs: seq<ConnectionData>, next: nat)
    requires AllReadAs(ps, cs) && |ps| > 0
    requires pos + |Framed(ps)| == |file| && file[pos..] == Framed(ps)
    requires next == pos + 8 + |ps[0].header| + |ps[0].data|
    ensures pos + 4 <= |file| && forall st: Scan :: ReadsConnectionAt(file, pos, next, cs[0], st)
    ensures AllReadAs(ps[1..], cs[1..])
    ensures next + |Framed(ps[1..])| == |file| && file[next..] == Framed(ps[1..])
  {
    FramedSplit(file, pos, ps, next);
    forall st: Scan ensures ReadsConnectionAt(file, pos, next, cs[0], st) {
      ReadConnectionRecord(file, pos, ps[0], cs[0], next, st);
    }
  }

  lemma FramedSplit(file: seq<byte>, pos: nat, ps: seq<RecordParts>, next: nat)
    requires |ps| > 0 && pos + |Framed(ps)| == |file| && file[pos..] == Framed(ps)
    requires next == pos + 8 + |ps[0].header| + |ps[0].data|
    ensures next <= |file| && file[pos..next] == EncodeRecord(ps[0].header, ps[0].data)
    ensures next + |Framed(ps[1..])| == |file| && file[next..] == Framed(ps[1..])
  {
    var a, b := EncodeRecord(ps[0].header, ps[0].data), Framed(ps[1..]);
    assert Framed(ps) == a + b;
    assert file[pos..next + |b|] == a + b;
    SplitWindow(file, pos, a, b);
    assert file[next..] == b;
  }

  /** The first record of a chain reads as its first connection. */
  lemma ChainHead(file: seq<byte>, pos: nat, ends: seq<nat>, cs: seq<ConnectionData>, st: Scan, st': Scan)
    requires ReadsChain(file, pos, ends, cs) && |cs| > 0
    requires st' == st.(connections := st.connections + [cs[0]])
    ensures pos + 4 <= |file| && ReadRecord(file, pos, st) == Ok((ends[0], st'))
    ensures ReadsChain(file, ends[0], ends[1..], cs[1..])
  {
    assert ReadsConnectionAt(file, pos, ends[0], cs[0], st);
  }

  /** The record loop over such a chain appends `cs`, in order, and ends in `fin`. */
  lemma {:induction false} ChainScan(file: seq<byte>, pos: nat, ends: seq<nat>, cs: seq<ConnectionData>,
                                     st: Scan, fin: Scan)
    requires ReadsChain(file, pos, ends, cs)
    requires fin == st.(connections := st.connections + cs)
    ensures ScanFrom(file, pos, st) == Ok(fin)
    decreases |cs|
  {
    if |cs| == 0 {
      AppendNone(st, cs, fin);
    } else {
      var st' := st.(connections := st.connections + [cs[0]]);
      ChainHead(file, pos, ends, cs, st, st');
      AppendHead(st, st', cs, fin);
      ChainScan(file, ends[0], ends[1..], cs[1..], st', fin);
      ChainStep(file, pos, ends[0], st, st', fin);
    }
  }

  lemma AppendNone(st: Scan, cs: seq<ConnectionData>, fin: Scan)
    requires |cs| == 0 && fin == st.(connections := st.connections + cs)
    ensures fin == st
  {
    assert st.connections + cs == st.connections;
  }

  lemma AppendHead(st: Scan, st': Scan, cs: seq<ConnectionData>, fin: Scan)
    requires |cs| > 0 && st' == st.(connections := st.connections + [cs[0]])
    requires fin == st.(connections := st.connections + cs)
    ensures fin == st'.(connections := st'.connections + cs[1..])
  {
    assert cs == [cs[0]] + cs[1..];
    assert st'.connections + cs[1..] == st.connections + cs;
  }

  lemma ChainStep(file: seq<byte>, pos: nat, next: nat, st: Scan, st': Scan, fin: Scan)
    requires pos + 4 <= |file| && ReadRecord(file, pos, st) == Ok((next, st'))
    requires ScanFrom(file, next, st') == Ok(fin)
    ensures ScanFrom(file, pos, st) == Ok(fin)
  {
    ScanStep(file, pos, st, next, st');
  }

  /**
   * A bag holding the version line, an indexed bag header that announces no
   * chunks and as many connections as follow, and then those connections'
   * records, reads back with exactly those connections (the last one per id)
   * and no chunks or index entries.
   */
  lemma ConnectionBagParses(h: BagHeaderRecord, cs: seq<ConnectionData>)
    requires h.indexPos != 0 && h.chunkCount == 0 && h.connCount == |cs|
    requires forall c | c in cs :: ShortConnection(c)
    ensures var file := Magic + EncodeRecord(EncodeFields(BagHeaderFields(h)), []) + Framed(WrittenConnections(cs));
            var r := MetadataFromBytes(file);
            && r.Ok?
            && r.value.version == "2.0"
            && r.value.connections == ConnectionMap(cs)
            && r.value.chunks == map[]
            && r.value.index == map[]
            && r.value.numBytes == |file|
  {
    var hdr := EncodeFields(BagHeaderFields(h));
    var ps := WrittenConnections(cs);
    var rest := EncodeRecord(hdr, []) + Framed(ps);
    var file := Magic + EncodeRecord(hdr, []) + Framed(ps);
    var fin := EmptyScan.(bagHeader := Some(h), connections := cs);
    assert file == Magic + rest;
    VersionCheckAccepts(rest);
    WrittenConnectionsRead(cs);
    ConnectionBagScans(h, hdr, ps, cs, file);
    ConnectionBagFinish(file, h, cs, fin);
  }

  /** Once the loop has read the bag header and the connections, the reader accepts the bag. */
  lemma ConnectionBagFinish(file: seq<byte>, h: BagHeaderRecord, cs: seq<ConnectionData>, fin: Scan)
    requires h.chunkCount == 0 && h.connCount == |cs|
    requires VersionCheck(file) == Ok("2.0")
    requires fin == EmptyScan.(bagHeader := Some(h), connections := cs)
    requires ScanFrom(file, |Magic|, EmptyScan) == Ok(fin)
    ensures var r := MetadataFromBytes(file);
            && r.Ok?
            && r.value.version == "2.0"
            && r.value.connections == ConnectionMap(cs)
            && r.value.chunks == map[]
            && r.value.index == map[]
            && r.value.numBytes == |file|
  {
  }

  /** The record loop over such a bag reads the bag header, then every connection. */
  lemma ConnectionBagScans(h: BagHeaderRecord, hdr: seq<byte>, ps: seq<RecordParts>, cs: seq<ConnectionData>,
                           file: seq<byte>)
    requires h.indexPos != 0
    requires AllReadAs(ps, cs)
    requires hdr == EncodeFields(BagHeaderFields(h))
    requires file == Magic + EncodeRecord(hdr, []) + Framed(ps)
    ensures ScanFrom(file, |Magic|, EmptyScan) == Ok(EmptyScan.(bagHeader := Some(h), connections := cs))
  {
    var pos := |Magic|;
    var q := pos + 4 + |hdr|;
    var next := q + 4;
    var st := EmptyScan.(bagHeader := Some(h));
    var fin := EmptyScan.(bagHeader := Some(h), connections := cs);
    BagPrefixSlices(hdr, ps, file, pos, q, next);
    BagHeaderReads(file, pos, hdr, h, q, next, st);
    FramedReadsChain(file, next, ps, cs);
    assert st.connections + cs == cs;
    ChainScan(file, next, Ends(next, ps), cs, st, fin);
    ChainStep(file, pos, next, EmptyScan, st, fin);
  }

  /** Where the bag header record and the connection records sit in such a bag. */
  lemma BagPrefixSlices(hdr: seq<byte>, ps: seq<RecordParts>, file: seq<byte>, pos: nat, q: nat, next: nat)
    requires file == Magic + EncodeRecord(hdr, []) + Framed(ps)
    requires pos == |Magic| && q == pos + 4 + |hdr| && next == q + 4
    ensures next + |Framed(ps)| == |file| && file[next..] == Framed(ps)
    ensures file[pos..pos + 4] == LeBytes(|hdr|, 4)
    ensures file[pos + 4..q] == hdr
    ensures file[q..next] == LeBytes(0, 4)
  {
    var pre := Magic + EncodeRecord(hdr, []);
    RecordSlices(Magic, hdr, []);
    assert file[..next] == pre;
    assert file[next..] == Framed(ps);
    assert file[pos..pos + 4] == pre[pos..pos + 4];
    assert file[pos + 4..pos + 4 + |hdr|] == pre[pos + 4..pos + 4 + |hdr|];
    assert file[pos + 4 + |hdr|..next] == pre[pos + 4 + |hdr|..next];
  }

  /** The bag header record at `pos` moves the loop from the empty state to `st`. */
  lemma BagHeaderReads(file: seq<byte>, pos: nat, hdr: seq<byte>, h: BagHeaderRecord, q: nat, next: nat, st: Scan)
    requires h.indexPos != 0 && hdr == EncodeFields(BagHeaderFields(h))
    requires q == pos + 4 + |hdr| && next == q + 4 <= |file|
    requires file[pos..pos + 4] == LeBytes(|hdr|, 4)
    requires file[pos + 4..q] == hdr
    requires file[q..next] == LeBytes(0, 4)
    requires st == EmptyScan.(bagHeader := Some(h))
    ensures ReadRecord(file, pos, EmptyScan) == Ok((next, st))
  {
    BagHeaderAt(file, pos, hdr, h, q, next);
    ReadBagHeaderOf(file, pos, hdr, h, q, next, st);
  }

  lemma BagHeaderAt(file: seq<byte>, pos: nat, hdr: seq<byte>, h: BagHeaderRecord, q: nat, next: nat)
    requires h.indexPos != 0 && hdr == EncodeFields(BagHeaderFields(h))
    requires q == pos + 4 + |hdr| && next == q + 4 <= |file|
    requires file[pos..pos + 4] == LeBytes(|hdr|, 4)
    requires file[pos + 4..q] == hdr
    requires file[q..next] == LeBytes(0, 4)
    ensures RecordHeader(file, pos) == Ok((hdr, q))
    ensures ReadHeaderOp(hdr) == Ok(BagHeader)
    ensures ParseBagHeader(hdr, file, q) == Ok((h, next))
  {
    BagHeaderBytesAreShort(h);
    EmptyDataAt(file, pos, hdr, q, next);
    BagHeaderParsed(file, pos, hdr, h, q, next);
  }

  lemma EmptyDataAt(file: seq<byte>, pos: nat, hdr: seq<byte>, q: nat, next: nat)
    requires |hdr| < 0x1_0000_0000
    requires q == pos + 4 + |hdr| && next == q + 4 <= |file|
    requires file[pos..pos + 4] == LeBytes(|hdr|, 4)
    requires file[pos + 4..q] == hdr
    requires file[q..next] == LeBytes(0, 4)
    ensures RecordHeader(file, pos) == Ok((hdr, q))
    ensures LeValue(file[q..next]) == 0
  {
    EmptyDataRecordAt(file, pos, hdr);
  }

  lemma ReadBagHeaderOf(file: seq<byte>, pos: nat, hdr: seq<byte>, h: BagHeaderRecord, q: nat, next: nat, st: Scan)
    requires q == pos + 4 + |hdr| && next == q + 4 <= |file|
    requires RecordHeader(file, pos) == Ok((hdr, q))
    requires ReadHeaderOp(hdr) == Ok(BagHeader)
    requires ParseBagHeader(hdr, file, q) == Ok((h, next))
    requires st == EmptyScan.(bagHeader := Some(h))
    ensures ReadRecord(file, pos, EmptyScan) == Ok((next, st))
  {
    ReadBagHeaderRecord(file, pos, hdr, h, EmptyScan);
  }

  lemma BagHeaderParsed(file: seq<byte>, pos: nat, hdr: seq<byte>, h: BagHeaderRecord, c: nat, next: nat)
    requires h.indexPos != 0 && hdr == EncodeFields(BagHeaderFields(h))
    requires c == pos + 4 + |hdr| && next == c + 4 <= |file|
    requires LeValue(file[c..next]) == 0
    ensures ReadHeaderOp(hdr) == Ok(BagHeader)
    ensures ParseBagHeader(hdr, file, c) == Ok((h, next))
  {
    BagHeaderOpIsRead(h);
    BagHeaderRoundTrip(h);
    BagHeaderWithEmptyData(hdr, file, c, h);
  }
}
