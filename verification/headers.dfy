/**
 * The record-header parsers of frost/src/lib.rs, each an instance of the
 * shared header loop, and the two fixed-width entries of index and
 * chunk-info data.
 */
module Headers {
  import opened Wrappers
  import opened Errors
  import opened Bytes
  import opened Parsing
  import opened RosTime
  import opened Fields
  import opened HeaderLoop

  /** `index_pos` */
  const IndexPosName: seq<byte> := [0x69, 0x6E, 0x64, 0x65, 0x78, 0x5F, 0x70, 0x6F, 0x73]
  /** `conn_count` */
  const ConnCountName: seq<byte> := [0x63, 0x6F, 0x6E, 0x6E, 0x5F, 0x63, 0x6F, 0x75, 0x6E, 0x74]
  /** `chunk_count` */
  const ChunkCountName: seq<byte> := [0x63, 0x68, 0x75, 0x6E, 0x6B, 0x5F, 0x63, 0x6F, 0x75, 0x6E, 0x74]
  /** `compression` */
  const CompressionName: seq<byte> := [0x63, 0x6F, 0x6D, 0x70, 0x72, 0x65, 0x73, 0x73, 0x69, 0x6F, 0x6E]
  /** `size` */
  const SizeName: seq<byte> := [0x73, 0x69, 0x7A, 0x65]
  /** `ver` */
  const VerName: seq<byte> := [0x76, 0x65, 0x72]
  /** `chunk_pos` */
  const ChunkPosName: seq<byte> := [0x63, 0x68, 0x75, 0x6E, 0x6B, 0x5F, 0x70, 0x6F, 0x73]
  /** `start_time` */
  const StartTimeName: seq<byte> := [0x73, 0x74, 0x61, 0x72, 0x74, 0x5F, 0x74, 0x69, 0x6D, 0x65]
  /** `end_time` */
  const EndTimeName: seq<byte> := [0x65, 0x6E, 0x64, 0x5F, 0x74, 0x69, 0x6D, 0x65]
  /** `count` */
  const CountName: seq<byte> := [0x63, 0x6F, 0x75, 0x6E, 0x74]
  /** `topic` */
  const TopicName: seq<byte> := [0x74, 0x6F, 0x70, 0x69, 0x63]
  /** `conn` */
  const ConnName: seq<byte> := [0x63, 0x6F, 0x6E, 0x6E]
  /** `type` */
  const TypeName: seq<byte> := [0x74, 0x79, 0x70, 0x65]
  /** `md5sum` */
  const Md5sumName: seq<byte> := [0x6D, 0x64, 0x35, 0x73, 0x75, 0x6D]
  /** `message_definition` */
  const MessageDefinitionName: seq<byte> := [0x6D, 0x65, 0x73, 0x73, 0x61, 0x67, 0x65, 0x5F, 0x64, 0x65, 0x66, 0x69, 0x6E, 0x69, 0x74, 0x69, 0x6F, 0x6E]
  /** `callerid` */
  const CalleridName: seq<byte> := [0x63, 0x61, 0x6C, 0x6C, 0x65, 0x72, 0x69, 0x64]
  /** `latching` */
  const LatchingName: seq<byte> := [0x6C, 0x61, 0x74, 0x63, 0x68, 0x69, 0x6E, 0x67]
  /** `time` */
  const TimeName: seq<byte> := [0x74, 0x69, 0x6D, 0x65]

  /** The `op` field of a record kind. */
  function OpField(op: OpCode): HeaderField {
    HeaderField(OpName, [op.Code()])
  }

  // ---------------------------------------------------------------- bag header

  datatype BagHeaderRecord = BagHeaderRecord(indexPos: u64, connCount: u32, chunkCount: u32)

  const BagHeaderLayout: Layout :=
    Layout(Some(0x03), map[IndexPosName := AsU64, ConnCountName := AsU32, ChunkCountName := AsU32])

  /** `BagHeader::from`. */
  function BagHeaderFrom(buf: seq<byte>): (r: Result<BagHeaderRecord, ParseError>)
    ensures ParseHeader(BagHeaderLayout, buf).Err? ==> r == Err(ParseHeader(BagHeaderLayout, buf).error)
    ensures r.Ok? <==> ParseHeader(BagHeaderLayout, buf).Ok?
                       && var m := ParseHeader(BagHeaderLayout, buf).value;
                       IndexPosName in m && ConnCountName in m && ChunkCountName in m
    ensures r.Ok? ==> var m := ParseHeader(BagHeaderLayout, buf).value;
                      && m[IndexPosName] == U64(r.value.indexPos)
                      && m[ConnCountName] == U32(r.value.connCount)
                      && m[ChunkCountName] == U32(r.value.chunkCount)
    ensures r.Err? && ParseHeader(BagHeaderLayout, buf).Ok? ==> r.error == MissingField
  {
    var m :- ParseHeader(BagHeaderLayout, buf);
    ParseHeaderTyped(BagHeaderLayout, buf);
    var indexPos :- NeedU64(m, IndexPosName);
    var connCount :- NeedU32(m, ConnCountName);
    var chunkCount :- NeedU32(m, ChunkCountName);
    Ok(BagHeaderRecord(indexPos, connCount, chunkCount))
  }

  /** The fields a writer emits for a bag header. */
  function BagHeaderFields(h: BagHeaderRecord): seq<HeaderField> {
    [ HeaderField(IndexPosName, LeBytes(h.indexPos, 8)),
      HeaderField(ConnCountName, LeBytes(h.connCount, 4)),
      HeaderField(ChunkCountName, LeBytes(h.chunkCount, 4)),
      OpField(BagHeader) ]
  }

  lemma BagHeaderChecks(h: BagHeaderRecord)
    ensures var fs := BagHeaderFields(h);
            && Check(BagHeaderLayout, fs[0]) == Ok(Some(U64(h.indexPos)))
            && Check(BagHeaderLayout, fs[1]) == Ok(Some(U32(h.connCount)))
            && Check(BagHeaderLayout, fs[2]) == Ok(Some(U32(h.chunkCount)))
            && Check(BagHeaderLayout, fs[3]) == Ok(None)
  {
    DecodeRoundTrip(h.indexPos, ZERO, []);
    DecodeRoundTrip(h.connCount, ZERO, []);
    DecodeRoundTrip(h.chunkCount, ZERO, []);
  }

  lemma BagHeaderShape(h: BagHeaderRecord)
    ensures var fs := BagHeaderFields(h);
            (forall k | 0 <= k < |fs| :: Encodable(fs[k])) && DistinctNames(fs)
  {
  }

  /** A written bag header parses back to itself. */
  lemma BagHeaderRoundTrip(h: BagHeaderRecord)
    ensures BagHeaderFrom(EncodeFields(BagHeaderFields(h))) == Ok(h)
  {
    var fs := BagHeaderFields(h);
    BagHeaderChecks(h);
    BagHeaderShape(h);
    ParseEncodedHeader(BagHeaderLayout, fs);
    var m := ParseHeader(BagHeaderLayout, EncodeFields(fs)).value;
    assert m[IndexPosName] == U64(h.indexPos) by { assert fs[0].name == IndexPosName; }
    assert m[ConnCountName] == U32(h.connCount) by { assert fs[1].name == ConnCountName; }
    assert m[ChunkCountName] == U32(h.chunkCount) by { assert fs[2].name == ChunkCountName; }
  }

  // -------------------------------------------------------------- chunk header

  /**
   * A chunk header and the positions the reader attaches to it: the record's
   * own position, the position of its data and the data's length.
   */
  datatype ChunkHeaderRecord = ChunkHeaderRecord(
    compression: seq<byte>, uncompressedSize: u32, compressedSize: u32, headerPos: nat, dataPos: nat)

  const ChunkHeaderLayout: Layout :=
    Layout(Some(0x05), map[CompressionName := AsText, SizeName := AsU32])

  /** `ChunkHeader::from`. */
  function ChunkHeaderFrom(buf: seq<byte>, headerPos: nat, dataPos: nat, compressedSize: u32)
    : (r: Result<ChunkHeaderRecord, ParseError>)
    ensures ParseHeader(ChunkHeaderLayout, buf).Err? ==> r == Err(ParseHeader(ChunkHeaderLayout, buf).error)
    ensures r.Ok? <==> ParseHeader(ChunkHeaderLayout, buf).Ok?
                       && var m := ParseHeader(ChunkHeaderLayout, buf).value;
                       CompressionName in m && SizeName in m
    ensures r.Ok? ==> r.value.headerPos == headerPos && r.value.dataPos == dataPos
                      && r.value.compressedSize == compressedSize
    ensures r.Ok? ==> var m := ParseHeader(ChunkHeaderLayout, buf).value;
                      && m[CompressionName] == Text(r.value.compression)
                      && m[SizeName] == U32(r.value.uncompressedSize)
    ensures r.Err? && ParseHeader(ChunkHeaderLayout, buf).Ok? ==> r.error == MissingField
  {
    var m :- ParseHeader(ChunkHeaderLayout, buf);
    ParseHeaderTyped(ChunkHeaderLayout, buf);
    var compression :- NeedText(m, CompressionName);
    var size :- NeedU32(m, SizeName);
    Ok(ChunkHeaderRecord(compression, size, compressedSize, headerPos, dataPos))
  }

  function ChunkHeaderFields(compression: seq<byte>, size: u32): seq<HeaderField> {
    [ HeaderField(CompressionName, compression),
      HeaderField(SizeName, LeBytes(size, 4)),
      OpField(ChunkHeader) ]
  }

  /** A written chunk header parses back to its compression and size. */
  lemma ChunkHeaderRoundTrip(compression: seq<byte>, size: u32, headerPos: nat, dataPos: nat, compressedSize: u32)
    requires |compression| < 0x1000
    ensures ChunkHeaderFrom(EncodeFields(ChunkHeaderFields(compression, size)), headerPos, dataPos, compressedSize)
            == Ok(ChunkHeaderRecord(compression, size, compressedSize, headerPos, dataPos))
  {
    var fs := ChunkHeaderFields(compression, size);
    DecodeRoundTrip(size, ZERO, compression);
    assert Check(ChunkHeaderLayout, fs[0]) == Ok(Some(Text(compression)));
    assert Check(ChunkHeaderLayout, fs[1]) == Ok(Some(U32(size)));
    assert Check(ChunkHeaderLayout, fs[2]) == Ok(None);
    assert forall k | 0 <= k < |fs| :: Encodable(fs[k]);
    assert DistinctNames(fs);
    ParseEncodedHeader(ChunkHeaderLayout, fs);
    var m := ParseHeader(ChunkHeaderLayout, EncodeFields(fs)).value;
    assert m[CompressionName] == Text(compression) by { assert fs[0].name == CompressionName; }
    assert m[SizeName] == U32(size) by { assert fs[1].name == SizeName; }
  }

  // --------------------------------------------------------- chunk info header

  datatype ChunkInfoHeaderRecord = ChunkInfoHeaderRecord(
    version: u32, chunkPos: u64, startTime: Time, endTime: Time, connectionCount: u32)

  const ChunkInfoHeaderLayout: Layout :=
    Layout(Some(0x06), map[VerName := AsU32, ChunkPosName := AsU64, StartTimeName := AsTime,
                           EndTimeName := AsTime, CountName := AsU32])

  /** `ChunkInfoHeader::from`. */
  function ChunkInfoHeaderFrom(buf: seq<byte>): (r: Result<ChunkInfoHeaderRecord, ParseError>)
    ensures ParseHeader(ChunkInfoHeaderLayout, buf).Err? ==> r == Err(ParseHeader(ChunkInfoHeaderLayout, buf).error)
    ensures r.Ok? <==> ParseHeader(ChunkInfoHeaderLayout, buf).Ok?
                       && var m := ParseHeader(ChunkInfoHeaderLayout, buf).value;
                       VerName in m && ChunkPosName in m && StartTimeName in m && EndTimeName in m && CountName in m
    ensures r.Ok? ==> var m := ParseHeader(ChunkInfoHeaderLayout, buf).value;
                      && m[VerName] == U32(r.value.version)
                      && m[ChunkPosName] == U64(r.value.chunkPos)
                      && m[StartTimeName] == TimeValue(r.value.startTime)
                      && m[EndTimeName] == TimeValue(r.value.endTime)
                      && m[CountName] == U32(r.value.connectionCount)
    ensures r.Err? && ParseHeader(ChunkInfoHeaderLayout, buf).Ok? ==> r.error == MissingField
  {
    var m :- ParseHeader(ChunkInfoHeaderLayout, buf);
    ParseHeaderTyped(ChunkInfoHeaderLayout, buf);
    var version :- NeedU32(m, VerName);
    var chunkPos :- NeedU64(m, ChunkPosName);
    var startTime :- NeedTime(m, StartTimeName);
    var endTime :- NeedTime(m, EndTimeName);
    var count :- NeedU32(m, CountName);
    Ok(ChunkInfoHeaderRecord(version, chunkPos, startTime, endTime, count))
  }

  function ChunkInfoHeaderFields(h: ChunkInfoHeaderRecord): seq<HeaderField> {
    [ HeaderField(VerName, LeBytes(h.version, 4)),
      HeaderField(ChunkPosName, LeBytes(h.chunkPos, 8)),
      HeaderField(StartTimeName, Encode(h.startTime)),
      HeaderField(EndTimeName, Encode(h.endTime)),
      HeaderField(CountName, LeBytes(h.connectionCount, 4)),
      OpField(ChunkInfoHeader) ]
  }

  lemma ChunkInfoHeaderChecks(h: ChunkInfoHeaderRecord)
    ensures var fs := ChunkInfoHeaderFields(h);
            && Check(ChunkInfoHeaderLayout, fs[0]) == Ok(Some(U32(h.version)))
            && Check(ChunkInfoHeaderLayout, fs[1]) == Ok(Some(U64(h.chunkPos)))
            && Check(ChunkInfoHeaderLayout, fs[2]) == Ok(Some(TimeValue(h.startTime)))
            && Check(ChunkInfoHeaderLayout, fs[3]) == Ok(Some(TimeValue(h.endTime)))
            && Check(ChunkInfoHeaderLayout, fs[4]) == Ok(Some(U32(h.connectionCount)))
            && Check(ChunkInfoHeaderLayout, fs[5]) == Ok(None)
  {
    DecodeRoundTrip(h.version, h.startTime, []);
    DecodeRoundTrip(h.chunkPos, h.endTime, []);
    DecodeRoundTrip(h.connectionCount, ZERO, []);
  }

  lemma ChunkInfoHeaderShape(h: ChunkInfoHeaderRecord)
    ensures var fs := ChunkInfoHeaderFields(h);
            (forall k | 0 <= k < |fs| :: Encodable(fs[k])) && DistinctNames(fs)
  {
  }

  /** A written chunk info header parses back to itself. */
  lemma ChunkInfoHeaderRoundTrip(h: ChunkInfoHeaderRecord)
    ensures ChunkInfoHeaderFrom(EncodeFields(ChunkInfoHeaderFields(h))) == Ok(h)
  {
    var fs := ChunkInfoHeaderFields(h);
    var l := ChunkInfoHeaderLayout;
    ChunkInfoHeaderChecks(h);
    ChunkInfoHeaderShape(h);
    ParseEncodedHeader(l, fs);
    var m := ParseHeader(l, EncodeFields(fs)).value;
    assert m[VerName] == U32(h.version) by { assert fs[0].name == VerName; }
    assert m[ChunkPosName] == U64(h.chunkPos) by { assert fs[1].name == ChunkPosName; }
    assert m[StartTimeName] == TimeValue(h.startTime) by { assert fs[2].name == StartTimeName; }
    assert m[EndTimeName] == TimeValue(h.endTime) by { assert fs[3].name == EndTimeName; }
    assert m[CountName] == U32(h.connectionCount) by { assert fs[4].name == CountName; }
  }

  // -------------------------------------------------------- connection header

  datatype ConnectionHeaderRecord = ConnectionHeaderRecord(connectionId: u32, topic: seq<byte>)

  const ConnectionHeaderLayout: Layout :=
    Layout(Some(0x07), map[TopicName := AsText, ConnName := AsU32])

  /** `ConnectionHeader::from`. */
  function ConnectionHeaderFrom(buf: seq<byte>): (r: Result<ConnectionHeaderRecord, ParseError>)
    ensures ParseHeader(ConnectionHeaderLayout, buf).Err? ==> r == Err(ParseHeader(ConnectionHeaderLayout, buf).error)
    ensures r.Ok? <==> ParseHeader(ConnectionHeaderLayout, buf).Ok?
                       && var m := ParseHeader(ConnectionHeaderLayout, buf).value;
                       TopicName in m && ConnName in m
    ensures r.Ok? ==> var m := ParseHeader(ConnectionHeaderLayout, buf).value;
                      && m[ConnName] == U32(r.value.connectionId)
                      && m[TopicName] == Text(r.value.topic)
    ensures r.Err? && ParseHeader(ConnectionHeaderLayout, buf).Ok? ==> r.error == MissingField
  {
    var m :- ParseHeader(ConnectionHeaderLayout, buf);
    ParseHeaderTyped(ConnectionHeaderLayout, buf);
    var conn :- NeedU32(m, ConnName);
    var topic :- NeedText(m, TopicName);
    Ok(ConnectionHeaderRecord(conn, topic))
  }

  function ConnectionHeaderFields(h: ConnectionHeaderRecord): seq<HeaderField> {
    [ HeaderField(TopicName, h.topic),
      HeaderField(ConnName, LeBytes(h.connectionId, 4)),
      OpField(ConnectionHeader) ]
  }

  /** A written connection header parses back to itself. */
  lemma ConnectionHeaderRoundTrip(h: ConnectionHeaderRecord)
    requires |h.topic| < 0x1000
    ensures ConnectionHeaderFrom(EncodeFields(ConnectionHeaderFields(h))) == Ok(h)
  {
    var fs := ConnectionHeaderFields(h);
    DecodeRoundTrip(h.connectionId, ZERO, h.topic);
    assert Check(ConnectionHeaderLayout, fs[0]) == Ok(Some(Text(h.topic)));
    assert Check(ConnectionHeaderLayout, fs[1]) == Ok(Some(U32(h.connectionId)));
    assert Check(ConnectionHeaderLayout, fs[2]) == Ok(None);
    assert forall k | 0 <= k < |fs| :: Encodable(fs[k]);
    assert DistinctNames(fs);
    ParseEncodedHeader(ConnectionHeaderLayout, fs);
    var m := ParseHeader(ConnectionHeaderLayout, EncodeFields(fs)).value;
    assert m[TopicName] == Text(h.topic) by { assert fs[0].name == TopicName; }
    assert m[ConnName] == U32(h.connectionId) by { assert fs[1].name == ConnName; }
  }

  // ---------------------------------------------------------- connection data

  /** The data of a connection record, with the id and topic of its header. */
  datatype ConnectionData = ConnectionData(
    connectionId: u32, topic: seq<byte>, dataType: seq<byte>, md5sum: seq<byte>,
    messageDefinition: seq<byte>, callerId: Option<seq<byte>>, latching: bool)

  /** Connection data has no `op` case; its own `topic` field is accepted and ignored. */
  const ConnectionDataLayout: Layout :=
    Layout(None, map[TopicName := Skip, TypeName := AsText, Md5sumName := AsText,
                     MessageDefinitionName := AsText, CalleridName := AsText, LatchingName := AsFlag])

  /** `ConnectionData::from`. */
  function ConnectionDataFrom(buf: seq<byte>, connectionId: u32, topic: seq<byte>)
    : (r: Result<ConnectionData, ParseError>)
    ensures ParseHeader(ConnectionDataLayout, buf).Err? ==> r == Err(ParseHeader(ConnectionDataLayout, buf).error)
    ensures r.Ok? <==> ParseHeader(ConnectionDataLayout, buf).Ok?
                       && var m := ParseHeader(ConnectionDataLayout, buf).value;
                       TypeName in m && Md5sumName in m && MessageDefinitionName in m
    ensures r.Ok? ==> && r.value.connectionId == connectionId && r.value.topic == topic
                      && var m := ParseHeader(ConnectionDataLayout, buf).value;
                      && (r.value.callerId.Some? <==> CalleridName in m)
                      && (r.value.latching <==> LatchingName in m && m[LatchingName] == Flag(true))
    ensures r.Ok? ==> var m := ParseHeader(ConnectionDataLayout, buf).value;
                      && m[TypeName] == Text(r.value.dataType)
                      && m[Md5sumName] == Text(r.value.md5sum)
                      && m[MessageDefinitionName] == Text(r.value.messageDefinition)
                      && (r.value.callerId.Some? ==> m[CalleridName] == Text(r.value.callerId.value))
    ensures r.Err? && ParseHeader(ConnectionDataLayout, buf).Ok? ==> r.error == MissingField
  {
    var m :- ParseHeader(ConnectionDataLayout, buf);
    ParseHeaderTyped(ConnectionDataLayout, buf);
    var dataType :- NeedText(m, TypeName);
    var md5sum :- NeedText(m, Md5sumName);
    var definition :- NeedText(m, MessageDefinitionName);
    Ok(ConnectionData(connectionId, topic, dataType, md5sum, definition,
                      OptText(m, CalleridName), FlagOrFalse(m, LatchingName)))
  }

  /** The fields a writer emits for connection data, the optional ones included. */
  function ConnectionDataFields(c: ConnectionData, latchingValue: seq<byte>): seq<HeaderField> {
    [ HeaderField(TopicName, c.topic),
      HeaderField(TypeName, c.dataType),
      HeaderField(Md5sumName, c.md5sum),
      HeaderField(MessageDefinitionName, c.messageDefinition),
      HeaderField(LatchingName, latchingValue) ]
    + (if c.callerId.Some? then [HeaderField(CalleridName, c.callerId.value)] else [])
  }

  lemma ConnectionDataChecks(c: ConnectionData, latchingValue: seq<byte>, dataTopic: seq<byte>)
    requires |c.topic| < 0x1000 && |dataTopic| < 0x1000 && |c.dataType| < 0x1000 && |c.md5sum| < 0x1000
    requires |c.messageDefinition| < 0x1000 && |latchingValue| < 0x1000
    requires c.callerId.Some? ==> |c.callerId.value| < 0x1000
    requires c.latching <==> latchingValue == One
    ensures var fs := ConnectionDataFields(c.(topic := dataTopic), latchingValue);
            && |fs| > 0
            && (forall k | 0 <= k < |fs| :: Check(ConnectionDataLayout, fs[k]).Ok?)
            && Check(ConnectionDataLayout, fs[1]) == Ok(Some(Text(c.dataType)))
            && Check(ConnectionDataLayout, fs[2]) == Ok(Some(Text(c.md5sum)))
            && Check(ConnectionDataLayout, fs[3]) == Ok(Some(Text(c.messageDefinition)))
            && Check(ConnectionDataLayout, fs[4]) == Ok(Some(Flag(c.latching)))
            && (c.callerId.Some? ==> Check(ConnectionDataLayout, fs[5]) == Ok(Some(Text(c.callerId.value))))
            && (forall k | 0 <= k < |fs| :: fs[k].name == CalleridName ==> c.callerId.Some?)
  {
    var fs := ConnectionDataFields(c.(topic := dataTopic), latchingValue);
    var l := ConnectionDataLayout;
    assert Check(l, fs[0]) == Ok(None);
    assert Check(l, fs[1]) == Ok(Some(Text(c.dataType)));
    assert Check(l, fs[2]) == Ok(Some(Text(c.md5sum)));
    assert Check(l, fs[3]) == Ok(Some(Text(c.messageDefinition)));
    assert Check(l, fs[4]) == Ok(Some(Flag(c.latching)));
    if c.callerId.Some? {
      assert Check(l, fs[5]) == Ok(Some(Text(c.callerId.value)));
    }
  }

  lemma ConnectionDataShape(c: ConnectionData, latchingValue: seq<byte>, dataTopic: seq<byte>)
    requires |c.topic| < 0x1000 && |dataTopic| < 0x1000 && |c.dataType| < 0x1000 && |c.md5sum| < 0x1000
    requires |c.messageDefinition| < 0x1000 && |latchingValue| < 0x1000
    requires c.callerId.Some? ==> |c.callerId.value| < 0x1000
    ensures var fs := ConnectionDataFields(c.(topic := dataTopic), latchingValue);
            (forall k | 0 <= k < |fs| :: Encodable(fs[k])) && DistinctNames(fs)
  {
  }

  /**
   * Written connection data parses back to itself: the header's topic is the
   * one used, whatever the data's own `topic` field holds, and `latching` is
   * set exactly when its value is the single byte `1`.
   */
  lemma ConnectionDataRoundTrip(c: ConnectionData, latchingValue: seq<byte>, dataTopic: seq<byte>)
    requires |c.topic| < 0x1000 && |dataTopic| < 0x1000 && |c.dataType| < 0x1000 && |c.md5sum| < 0x1000
    requires |c.messageDefinition| < 0x1000 && |latchingValue| < 0x1000
    requires c.callerId.Some? ==> |c.callerId.value| < 0x1000
    requires c.latching <==> latchingValue == One
    ensures ConnectionDataFrom(EncodeFields(ConnectionDataFields(c.(topic := dataTopic), latchingValue)),
                               c.connectionId, c.topic) == Ok(c)
  {
    var fs := ConnectionDataFields(c.(topic := dataTopic), latchingValue);
    var l := ConnectionDataLayout;
    ConnectionDataChecks(c, latchingValue, dataTopic);
    ConnectionDataShape(c, latchingValue, dataTopic);
    ParseHeaderOfEncoded(l, fs);
    FoldSeqDistinct(l, fs, map[]);
    var m := ParseHeader(l, EncodeFields(fs)).value;
    assert m[TypeName] == Text(c.dataType) by { assert fs[1].name == TypeName; }
    assert m[Md5sumName] == Text(c.md5sum) by { assert fs[2].name == Md5sumName; }
    assert m[MessageDefinitionName] == Text(c.messageDefinition) by { assert fs[3].name == MessageDefinitionName; }
    assert m[LatchingName] == Flag(c.latching) by { assert fs[4].name == LatchingName; }
    if c.callerId.Some? {
      assert m[CalleridName] == Text(c.callerId.value) by { assert fs[5].name == CalleridName; }
    } else {
      assert CalleridName !in m;
    }
  }

  // -------------------------------------------------------- index data header

  datatype IndexDataHeaderRecord = IndexDataHeaderRecord(version: u32, connectionId: u32, count: u32)

  const IndexDataHeaderLayout: Layout :=
    Layout(Some(0x04), map[VerName := AsU32, ConnName := AsU32, CountName := AsU32])

  /** `IndexDataHeader::from`. */
  function IndexDataHeaderFrom(buf: seq<byte>): (r: Result<IndexDataHeaderRecord, ParseError>)
    ensures ParseHeader(IndexDataHeaderLayout, buf).Err? ==> r == Err(ParseHeader(IndexDataHeaderLayout, buf).error)
    ensures r.Ok? <==> ParseHeader(IndexDataHeaderLayout, buf).Ok?
                       && var m := ParseHeader(IndexDataHeaderLayout, buf).value;
                       VerName in m && ConnName in m && CountName in m
    ensures r.Ok? ==> var m := ParseHeader(IndexDataHeaderLayout, buf).value;
                      && m[VerName] == U32(r.value.version)
                      && m[ConnName] == U32(r.value.connectionId)
                      && m[CountName] == U32(r.value.count)
    ensures r.Err? && ParseHeader(IndexDataHeaderLayout, buf).Ok? ==> r.error == MissingField
  {
    var m :- ParseHeader(IndexDataHeaderLayout, buf);
    ParseHeaderTyped(IndexDataHeaderLayout, buf);
    var version :- NeedU32(m, VerName);
    var conn :- NeedU32(m, ConnName);
    var count :- NeedU32(m, CountName);
    Ok(IndexDataHeaderRecord(version, conn, count))
  }

  function IndexDataHeaderFields(h: IndexDataHeaderRecord): seq<HeaderField> {
    [ HeaderField(VerName, LeBytes(h.version, 4)),
      HeaderField(ConnName, LeBytes(h.connectionId, 4)),
      HeaderField(CountName, LeBytes(h.count, 4)),
      OpField(IndexDataHeader) ]
  }

  lemma IndexDataHeaderChecks(h: IndexDataHeaderRecord)
    ensures var fs := IndexDataHeaderFields(h);
            && Check(IndexDataHeaderLayout, fs[0]) == Ok(Some(U32(h.version)))
            && Check(IndexDataHeaderLayout, fs[1]) == Ok(Some(U32(h.connectionId)))
            && Check(IndexDataHeaderLayout, fs[2]) == Ok(Some(U32(h.count)))
            && Check(IndexDataHeaderLayout, fs[3]) == Ok(None)
  {
    DecodeRoundTrip(h.version, ZERO, []);
    DecodeRoundTrip(h.connectionId, ZERO, []);
    DecodeRoundTrip(h.count, ZERO, []);
  }

  lemma IndexDataHeaderShape(h: IndexDataHeaderRecord)
    ensures var fs := IndexDataHeaderFields(h);
            (forall k | 0 <= k < |fs| :: Encodable(fs[k])) && DistinctNames(fs)
  {
  }

  /** A written index data header parses back to itself. */
  lemma IndexDataHeaderRoundTrip(h: IndexDataHeaderRecord)
    ensures IndexDataHeaderFrom(EncodeFields(IndexDataHeaderFields(h))) == Ok(h)
  {
    var fs := IndexDataHeaderFields(h);
    IndexDataHeaderChecks(h);
    IndexDataHeaderShape(h);
    ParseEncodedHeader(IndexDataHeaderLayout, fs);
    var m := ParseHeader(IndexDataHeaderLayout, EncodeFields(fs)).value;
    assert m[VerName] == U32(h.version) by { assert fs[0].name == VerName; }
    assert m[ConnName] == U32(h.connectionId) by { assert fs[1].name == ConnName; }
    assert m[CountName] == U32(h.count) by { assert fs[2].name == CountName; }
  }

  // ------------------------------------------------------ message data header

  datatype MessageDataHeaderRecord = MessageDataHeaderRecord(conn: u32, time: Time)

  const MessageDataHeaderLayout: Layout :=
    Layout(Some(0x02), map[ConnName := AsU32, TimeName := AsTime])

  /** `MessageDataHeader::from`. */
  function MessageDataHeaderFrom(buf: seq<byte>): (r: Result<MessageDataHeaderRecord, ParseError>)
    ensures ParseHeader(MessageDataHeaderLayout, buf).Err? ==> r == Err(ParseHeader(MessageDataHeaderLayout, buf).error)
    ensures r.Ok? <==> ParseHeader(MessageDataHeaderLayout, buf).Ok?
                       && var m := ParseHeader(MessageDataHeaderLayout, buf).value;
                       ConnName in m && TimeName in m
    ensures r.Ok? ==> var m := ParseHeader(MessageDataHeaderLayout, buf).value;
                      && m[ConnName] == U32(r.value.conn)
                      && m[TimeName] == TimeValue(r.value.time)
    ensures r.Err? && ParseHeader(MessageDataHeaderLayout, buf).Ok? ==> r.error == MissingField
  {
    var m :- ParseHeader(MessageDataHeaderLayout, buf);
    ParseHeaderTyped(MessageDataHeaderLayout, buf);
    var conn :- NeedU32(m, ConnName);
    var time :- NeedTime(m, TimeName);
    Ok(MessageDataHeaderRecord(conn, time))
  }

  function MessageDataHeaderFields(h: MessageDataHeaderRecord): seq<HeaderField> {
    [ HeaderField(ConnName, LeBytes(h.conn, 4)),
      HeaderField(TimeName, Encode(h.time)),
      OpField(MessageData) ]
  }

  /** A written message data header parses back to itself. */
  lemma MessageDataHeaderRoundTrip(h: MessageDataHeaderRecord)
    ensures MessageDataHeaderFrom(EncodeFields(MessageDataHeaderFields(h))) == Ok(h)
  {
    var fs := MessageDataHeaderFields(h);
    DecodeRoundTrip(h.conn, h.time, []);
    assert Check(MessageDataHeaderLayout, fs[0]) == Ok(Some(U32(h.conn)));
    assert Check(MessageDataHeaderLayout, fs[1]) == Ok(Some(TimeValue(h.time)));
    assert Check(MessageDataHeaderLayout, fs[2]) == Ok(None);
    assert forall k | 0 <= k < |fs| :: Encodable(fs[k]);
    assert DistinctNames(fs);
    ParseEncodedHeader(MessageDataHeaderLayout, fs);
    var m := ParseHeader(MessageDataHeaderLayout, EncodeFields(fs)).value;
    assert m[ConnName] == U32(h.conn) by { assert fs[0].name == ConnName; }
    assert m[TimeName] == TimeValue(h.time) by { assert fs[1].name == TimeName; }
  }

  // ------------------------------------------------------- fixed-width entries

  /** One entry of chunk-info data: a connection and its message count in the chunk. */
  datatype ChunkInfoData = ChunkInfoData(connectionId: u32, count: u32)

  /** `ChunkInfoData::from`: two little-endian u32 values. */
  function ChunkInfoDataFrom(buf: seq<byte>): (r: Result<ChunkInfoData, ParseError>)
    ensures r.Ok? <==> |buf| >= 8
    ensures r.Ok? ==> r.value.connectionId == LeValue(buf[..4]) && r.value.count == LeValue(buf[4..8])
    ensures r.Err? ==> r.error == BufferTooSmall
  {
    var conn :- ParseLeU32At(buf, 0);
    var count :- ParseLeU32At(buf, 4);
    LeValue4(buf[..4]);
    LeValue4(buf[4..8]);
    Ok(ChunkInfoData(conn, count))
  }

  /** One entry of index data: where one message of a connection is. */
  datatype IndexEntry = IndexEntry(connectionId: u32, chunkPos: nat, time: Time, offset: u32)

  /** `IndexData::from`: the time in bytes 0..8, the offset in bytes 8..12. */
  function IndexDataFrom(buf: seq<byte>, chunkPos: nat, connectionId: u32): (r: Result<IndexEntry, ParseError>)
    ensures r.Ok? <==> |buf| >= 12
    ensures r.Ok? ==> && r.value.connectionId == connectionId && r.value.chunkPos == chunkPos
                      && r.value.time.secs == LeValue(buf[..4]) && r.value.time.nsecs == LeValue(buf[4..8])
                      && r.value.offset == LeValue(buf[8..12])
    ensures r.Err? ==> r.error == BufferTooSmall
  {
    var time :- RosTime.FromBytes(buf);
    var offset :- ParseLeU32At(buf, 8);
    LeValue4(buf[8..12]);
    Ok(IndexEntry(connectionId, chunkPos, time, offset))
  }

  /** The twelve bytes of an index entry. */
  function EncodeIndexEntry(time: Time, offset: u32): (r: seq<byte>)
    ensures |r| == 12
  {
    Encode(time) + LeBytes(offset, 4)
  }

  /** The eight bytes of a chunk-info entry. */
  function EncodeChunkInfoData(d: ChunkInfoData): (r: seq<byte>)
    ensures |r| == 8
  {
    LeBytes(d.connectionId, 4) + LeBytes(d.count, 4)
  }

  /** Written entries read back to themselves. */
  lemma EntriesRoundTrip(e: IndexEntry, d: ChunkInfoData)
    ensures IndexDataFrom(EncodeIndexEntry(e.time, e.offset), e.chunkPos, e.connectionId) == Ok(e)
    ensures ChunkInfoDataFrom(EncodeChunkInfoData(d)) == Ok(d)
  {
    assert Pow256(4) == 0x1_0000_0000;
    var b := EncodeIndexEntry(e.time, e.offset);
    assert b[..4] == LeBytes(e.time.secs, 4) && b[4..8] == LeBytes(e.time.nsecs, 4) && b[8..12] == LeBytes(e.offset, 4);
    LeValueOfLeBytes(e.time.secs, 4);
    LeValueOfLeBytes(e.time.nsecs, 4);
    LeValueOfLeBytes(e.offset, 4);
    var c := EncodeChunkInfoData(d);
    assert c[..4] == LeBytes(d.connectionId, 4) && c[4..8] == LeBytes(d.count, 4);
    LeValueOfLeBytes(d.connectionId, 4);
    LeValueOfLeBytes(d.count, 4);
  }
}
