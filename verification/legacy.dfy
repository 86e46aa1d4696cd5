/**
 * The earlier reader of src/lib.rs. Its byte reads, `field_sep_index`,
 * `parse_field`, `read_header_op` and the bag, chunk, connection and
 * index-data header parsers behave as the newer ones do, but report
 * `std::io` errors; its connection data, chunk-info header, chunk-info and
 * message-data parsers accept other field sets than the newer ones.
 */
module Legacy {
  import opened Wrappers
  import opened Errors
  import opened Bytes
  import Parsing
  import RosTime
  import Fields
  import opened HeaderLoop
  import Headers

  /** Rust's `()`: the value of a check that only succeeds or fails. */
  datatype Unit = Unit

  /** The `std::io::ErrorKind`s the older reader reports. */
  datatype IoKind = InvalidInput | InvalidData | UnexpectedEof

  /** An `io::Error` of a given kind, or a panic on an out-of-range slice. */
  datatype IoFailure = IoError(kind: IoKind) | Panic

  /**
   * The failure the older reader reports where the newer one reports `e`:
   * short buffers and unknown opcodes are invalid input, a failed `read_exact`
   * is an unexpected end of file, and every other check is invalid data.
   */
  function AsIo(e: ParseError): IoFailure {
    match e
    case BufferTooSmall => IoError(InvalidInput)
    case InvalidOpCode => IoError(InvalidInput)
    case UnexpectedEOF => IoError(UnexpectedEof)
    case SliceOutOfRange => Panic
    case _ => IoError(InvalidData)
  }

  function Lift<T>(r: Result<T, ParseError>): Result<T, IoFailure> {
    match r
    case Ok(v) => Ok(v)
    case Err(e) => Err(AsIo(e))
  }

  // ---------------------------------------------------------------- byte reads

  /** `read_u8_at`. */
  function ReadU8At(buf: seq<byte>, i: nat): (r: Result<byte, IoFailure>)
    ensures r.Ok? <==> i < |buf|
    ensures r.Ok? ==> r.value == buf[i]
    ensures r.Err? ==> r.error == IoError(InvalidInput)
  {
    Lift(Parsing.ParseU8At(buf, i))
  }

  /** `read_le_u32_at`. */
  function ReadLeU32At(buf: seq<byte>, i: nat): (r: Result<u32, IoFailure>)
    ensures r.Ok? <==> i + 4 <= |buf|
    ensures r.Ok? ==> r.value == LeValue(buf[i..i + 4])
    ensures r.Err? ==> r.error == IoError(InvalidInput)
  {
    if i + 4 <= |buf| then LeValue4(buf[i..i + 4]); Lift(Parsing.ParseLeU32At(buf, i))
    else Lift(Parsing.ParseLeU32At(buf, i))
  }

  /** `read_le_u64_at`. */
  function ReadLeU64At(buf: seq<byte>, i: nat): (r: Result<u64, IoFailure>)
    ensures r.Ok? <==> i + 8 <= |buf|
    ensures r.Ok? ==> r.value == LeValue(buf[i..i + 8])
    ensures r.Err? ==> r.error == IoError(InvalidInput)
  {
    if i + 8 <= |buf| then
      var r := Parsing.ParseLeU64(buf[i..]);
      assert buf[i..][..8] == buf[i..i + 8];
      Lift(r)
    else Lift(Parsing.ParseLeU64At(buf, i))
  }

  function ReadU8(buf: seq<byte>): Result<byte, IoFailure> {
    ReadU8At(buf, 0)
  }

  function ReadLeU32(buf: seq<byte>): Result<u32, IoFailure> {
    ReadLeU32At(buf, 0)
  }

  function ReadLeU64(buf: seq<byte>): Result<u64, IoFailure> {
    ReadLeU64At(buf, 0)
  }

  /** The older reads agree with the newer ones wherever those succeed, and fail where they fail. */
  lemma ReadsAgree(buf: seq<byte>, i: nat)
    ensures ReadU8At(buf, i).Ok? <==> Parsing.ParseU8At(buf, i).Ok?
    ensures ReadLeU32At(buf, i).Ok? <==> Parsing.ParseLeU32At(buf, i).Ok?
    ensures ReadLeU64At(buf, i).Ok? <==> Parsing.ParseLeU64At(buf, i).Ok?
    ensures ReadLeU32At(buf, i).Ok? ==> ReadLeU32At(buf, i).value == Parsing.ParseLeU32At(buf, i).value
    ensures ReadLeU64At(buf, i).Ok? ==> ReadLeU64At(buf, i).value == Parsing.ParseLeU64At(buf, i).value
  {
    if i + 4 <= |buf| {
      LeValue4(buf[i..i + 4]);
    }
    if i + 8 <= |buf| {
      assert buf[i..][..8] == buf[i..i + 8];
      assert buf[i..][..4] == buf[i..i + 4];
      assert buf[i..][4..8] == buf[i + 4..i + 8];
      LeValue4(buf[i..i + 4]);
      LeValue4(buf[i + 4..i + 8]);
    }
  }

  /** `Time::from` of src/lib.rs: seconds in bytes 0..4, nanoseconds in bytes 4..8. */
  function TimeFrom(buf: seq<byte>): (r: Result<RosTime.Time, IoFailure>)
    ensures r.Ok? <==> |buf| >= 8
    ensures r.Ok? ==> r.value.secs == LeValue(buf[..4]) && r.value.nsecs == LeValue(buf[4..8])
    ensures r.Err? ==> r.error == IoError(InvalidInput)
  {
    var secs :- ReadLeU32(buf);
    var nsecs :- ReadLeU32At(buf, 4);
    Ok(RosTime.Time(secs, nsecs))
  }

  // ------------------------------------------------------------------- fields

  /** `field_sep_index`: the first `'='`, or invalid data. */
  function FieldSepIndex(buf: seq<byte>): (r: Result<nat, IoFailure>)
    ensures r.Ok? <==> Fields.Contains(buf, Fields.Sep)
    ensures r.Ok? ==> r.value < |buf| && buf[r.value] == Fields.Sep && !Fields.Contains(buf[..(r.value)], Fields.Sep)
    ensures r.Err? ==> r.error == IoError(InvalidData)
  {
    Lift(Fields.FieldSepIndex(buf))
  }

  /** The examples of the unit test next to the older `field_sep_index`. */
  lemma FieldSepIndexExamples()
    ensures FieldSepIndex(Fields.Hello) == Ok(5)
    ensures FieldSepIndex(Fields.Hello[2..8]) == Ok(3)
    ensures FieldSepIndex(Fields.NoSep) == Err(IoError(InvalidData))
  {
    Fields.FieldSepIndexExamples();
  }

  /**
   * `parse_field`: the field the newer parser reads, with a short length
   * prefix as invalid input, a missing separator as invalid data, and a length
   * past the buffer as a panic.
   */
  function ParseField(buf: seq<byte>, i: nat): (r: Result<Fields.Parsed, IoFailure>)
    ensures r.Ok? ==> && i + 4 < r.value.next <= |buf|
                      && r.value.next == i + 4 + LeValue(buf[i..i + 4])
                      && buf[i + 4..(r.value.next)] == r.value.field.name + [Fields.Sep] + r.value.field.value
                      && !Fields.Contains(r.value.field.name, Fields.Sep)
    ensures r == Err(IoError(InvalidInput)) <==> !Parsing.PrefixFits(buf, i)
    ensures r == Err(Panic) <==> Parsing.PrefixFits(buf, i) && !Parsing.BlockFits(buf, i)
    ensures r == Err(IoError(InvalidData)) <==>
              Parsing.BlockFits(buf, i) && !Fields.Contains(buf[i + 4..i + 4 + LeValue(buf[i..i + 4])], Fields.Sep)
  {
    Lift(Fields.ParseField(buf, i))
  }

  /** `read_header_op`: the record kind of the first `op` field. */
  function ReadHeaderOp(buf: seq<byte>): (r: Result<Fields.OpCode, IoFailure>)
    ensures Fields.SplitFields(buf, 0).Ok? ==>
              var first := Fields.FirstOp(Fields.SplitFields(buf, 0).value);
              && (r.Ok? <==> first.Ok?)
              && (r.Ok? ==> r.value == first.value)
              && (first == Err(MissingHeaderOp) ==> r == Err(IoError(InvalidData)))
              && (first == Err(InvalidOpCode) ==> r == Err(IoError(InvalidInput)))
  {
    var x := Fields.ReadHeaderOp(buf);
    if Fields.SplitFields(buf, 0).Ok? then
      Fields.ReadHeaderOpIsFirstOp(buf, 0);
      LiftOp(x);
      Lift(x)
    else Lift(x)
  }

  lemma LiftOp(x: Result<Fields.OpCode, ParseError>)
    ensures Lift(x).Ok? <==> x.Ok?
    ensures Lift(x).Ok? ==> Lift(x).value == x.value
    ensures x == Err(MissingHeaderOp) ==> Lift(x) == Err(IoError(InvalidData))
    ensures x == Err(InvalidOpCode) ==> Lift(x) == Err(IoError(InvalidInput))
  {
  }

  /**
   * The older loop also stops at the first `op` field: the fields before it
   * are not `op`, and nothing after it is read.
   */
  lemma ReadHeaderOpStopsAtOp(pre: seq<Fields.HeaderField>, f: Fields.HeaderField, rest: seq<byte>)
    requires forall k | 0 <= k < |pre| :: Fields.Encodable(pre[k]) && pre[k].name != Fields.OpName
    requires Fields.Encodable(f) && f.name == Fields.OpName
    ensures ReadHeaderOp(Fields.EncodeFields(pre) + Fields.EncodeField(f) + rest)
            == (if |f.value| == 0 then Err(IoError(InvalidInput)) else OpCodeFrom(f.value[0]))
  {
    var buf := Fields.EncodeFields(pre) + Fields.EncodeField(f) + rest;
    Fields.ReadHeaderOpStopsAtOp(pre, f, rest);
    ReadHeaderOpLifts(buf);
    OpOfValueLifts(Fields.ReadHeaderOp(buf), f.value);
  }

  lemma OpOfValueLifts(x: Result<Fields.OpCode, ParseError>, value: seq<byte>)
    requires x == (if |value| == 0 then Err(BufferTooSmall) else Fields.OpCodeFrom(value[0]))
    ensures Lift(x) == (if |value| == 0 then Err(IoError(InvalidInput)) else OpCodeFrom(value[0]))
  {
  }

  lemma ReadHeaderOpLifts(buf: seq<byte>)
    ensures ReadHeaderOp(buf) == Lift(Fields.ReadHeaderOp(buf))
  {
  }

  /** `OpCode::from`. */
  function OpCodeFrom(b: byte): (r: Result<Fields.OpCode, IoFailure>)
    ensures r.Ok? <==> 0x02 <= b <= 0x07
    ensures r.Ok? ==> r.value.Code() == b
    ensures r.Err? ==> r.error == IoError(InvalidInput)
  {
    Lift(Fields.OpCodeFrom(b))
  }

  // --------------------------------------------- headers shared with the newer reader

  /**
   * A header parser of the older reader whose fields are those of the newer
   * one: it accepts the same headers, returns the same record, and reports
   * the newer parser's error as an `io::Error`.
   */
  predicate SameAsNewer<T(==)>(older: Result<T, IoFailure>, newer: Result<T, ParseError>) {
    && (older.Ok? <==> newer.Ok?)
    && (older.Ok? ==> older.value == newer.value)
    && (newer.Err? ==> older.error == AsIo(newer.error))
  }

  /** `BagHeader::from`. */
  function BagHeaderFrom(buf: seq<byte>): (r: Result<Headers.BagHeaderRecord, IoFailure>)
    ensures SameAsNewer(r, Headers.BagHeaderFrom(buf))
  {
    Lift(Headers.BagHeaderFrom(buf))
  }

  /** `ConnectionHeader::from`. */
  function ConnectionHeaderFrom(buf: seq<byte>): (r: Result<Headers.ConnectionHeaderRecord, IoFailure>)
    ensures SameAsNewer(r, Headers.ConnectionHeaderFrom(buf))
  {
    Lift(Headers.ConnectionHeaderFrom(buf))
  }

  /** `IndexDataHeader::from`. */
  function IndexDataHeaderFrom(buf: seq<byte>): (r: Result<Headers.IndexDataHeaderRecord, IoFailure>)
    ensures SameAsNewer(r, Headers.IndexDataHeaderFrom(buf))
  {
    Lift(Headers.IndexDataHeaderFrom(buf))
  }

  /** A chunk header of the older reader: its compression and uncompressed size. */
  datatype ChunkHeaderRecord = ChunkHeaderRecord(compression: seq<byte>, size: u32)

  /** `ChunkHeader::from`: the fields of the newer parser, without the positions it attaches. */
  function ChunkHeaderFrom(buf: seq<byte>): (r: Result<ChunkHeaderRecord, IoFailure>)
    ensures r.Ok? <==> Headers.ChunkHeaderFrom(buf, 0, 0, 0).Ok?
    ensures r.Ok? ==> && r.value.compression == Headers.ChunkHeaderFrom(buf, 0, 0, 0).value.compression
                      && r.value.size == Headers.ChunkHeaderFrom(buf, 0, 0, 0).value.uncompressedSize
    ensures r.Err? ==> r.error == AsIo(Headers.ChunkHeaderFrom(buf, 0, 0, 0).error)
  {
    var h :- Lift(Headers.ChunkHeaderFrom(buf, 0, 0, 0));
    Ok(ChunkHeaderRecord(h.compression, h.uncompressedSize))
  }

  /** `IndexData::from`: the time in bytes 0..8 and the offset in bytes 8..12. */
  datatype IndexData = IndexData(time: RosTime.Time, chunkPos: nat, offset: u32)

  function IndexDataFrom(buf: seq<byte>, chunkPos: nat): (r: Result<IndexData, IoFailure>)
    ensures r.Ok? <==> |buf| >= 12
    ensures r.Ok? ==> && r.value.chunkPos == chunkPos
                      && r.value.time.secs == LeValue(buf[..4]) && r.value.time.nsecs == LeValue(buf[4..8])
                      && r.value.offset == LeValue(buf[8..12])
    ensures r.Err? ==> r.error == IoError(InvalidInput)
  {
    var time :- TimeFrom(buf);
    var offset :- ReadLeU32At(buf, 8);
    Ok(IndexData(time, chunkPos, offset))
  }

  // ----------------------------------------------------- headers of their own

  /** `version` */
  const VersionName: seq<byte> := [0x76, 0x65, 0x72, 0x73, 0x69, 0x6F, 0x6E]
  /** `connection_count` */
  const ConnectionCountName: seq<byte> :=
    [0x63, 0x6F, 0x6E, 0x6E, 0x65, 0x63, 0x74, 0x69, 0x6F, 0x6E, 0x5F, 0x63, 0x6F, 0x75, 0x6E, 0x74]

  /** Connection data of the older reader: no data type. */
  datatype ConnectionData = ConnectionData(
    connectionId: u32, topic: seq<byte>, md5sum: seq<byte>, messageDefinition: seq<byte>,
    callerId: Option<seq<byte>>, latching: bool)

  /** The newer layout without its `type` case. */
  const ConnectionDataLayout: Layout :=
    Layout(None, map[Headers.TopicName := Skip, Headers.Md5sumName := AsText,
                     Headers.MessageDefinitionName := AsText, Headers.CalleridName := AsText,
                     Headers.LatchingName := AsFlag])

  /** `ConnectionData::from`. */
  function ConnectionDataFrom(buf: seq<byte>, connectionId: u32, topic: seq<byte>): (r: Result<ConnectionData, IoFailure>)
    ensures ParseHeader(ConnectionDataLayout, buf).Err? ==>
              r == Err(AsIo(ParseHeader(ConnectionDataLayout, buf).error))
    ensures r.Ok? <==> ParseHeader(ConnectionDataLayout, buf).Ok?
                       && var m := ParseHeader(ConnectionDataLayout, buf).value;
                       Headers.Md5sumName in m && Headers.MessageDefinitionName in m
    ensures r.Ok? ==> && r.value.connectionId == connectionId && r.value.topic == topic
                      && var m := ParseHeader(ConnectionDataLayout, buf).value;
                      && (r.value.callerId.Some? <==> Headers.CalleridName in m)
                      && (r.value.latching <==> Headers.LatchingName in m && m[Headers.LatchingName] == Flag(true))
    ensures r.Ok? ==> var m := ParseHeader(ConnectionDataLayout, buf).value;
                      && m[Headers.Md5sumName] == Text(r.value.md5sum)
                      && m[Headers.MessageDefinitionName] == Text(r.value.messageDefinition)
                      && (r.value.callerId.Some? ==> m[Headers.CalleridName] == Text(r.value.callerId.value))
    ensures r.Err? && ParseHeader(ConnectionDataLayout, buf).Ok? ==> r.error == IoError(InvalidData)
  {
    var m :- Lift(ParseHeader(ConnectionDataLayout, buf));
    ParseHeaderTyped(ConnectionDataLayout, buf);
    var md5sum :- Lift(NeedText(m, Headers.Md5sumName));
    var definition :- Lift(NeedText(m, Headers.MessageDefinitionName));
    Ok(ConnectionData(connectionId, topic, md5sum, definition,
                      OptText(m, Headers.CalleridName), FlagOrFalse(m, Headers.LatchingName)))
  }

  /** A chunk-info header of the older reader: its times are plain u64 values. */
  datatype ChunkInfoHeaderRecord = ChunkInfoHeaderRecord(
    version: u32, chunkPos: u64, startTime: u64, endTime: u64, connectionCount: u32)

  const ChunkInfoHeaderLayout: Layout :=
    Layout(Some(0x06), map[VersionName := AsU32, Headers.ChunkPosName := AsU64, Headers.StartTimeName := AsU64,
                           Headers.EndTimeName := AsU64, ConnectionCountName := AsU32])

  /** `ChunkInfoHeader::from`. */
  function ChunkInfoHeaderFrom(buf: seq<byte>): (r: Result<ChunkInfoHeaderRecord, IoFailure>)
    ensures ParseHeader(ChunkInfoHeaderLayout, buf).Err? ==>
              r == Err(AsIo(ParseHeader(ChunkInfoHeaderLayout, buf).error))
    ensures r.Ok? <==> ParseHeader(ChunkInfoHeaderLayout, buf).Ok?
                       && var m := ParseHeader(ChunkInfoHeaderLayout, buf).value;
                       && VersionName in m && Headers.ChunkPosName in m && Headers.StartTimeName in m
                       && Headers.EndTimeName in m && ConnectionCountName in m
    ensures r.Ok? ==> var m := ParseHeader(ChunkInfoHeaderLayout, buf).value;
                      && m[VersionName] == U32(r.value.version)
                      && m[Headers.ChunkPosName] == U64(r.value.chunkPos)
                      && m[Headers.StartTimeName] == U64(r.value.startTime)
                      && m[Headers.EndTimeName] == U64(r.value.endTime)
                      && m[ConnectionCountName] == U32(r.value.connectionCount)
    ensures r.Err? && ParseHeader(ChunkInfoHeaderLayout, buf).Ok? ==> r.error == IoError(InvalidData)
  {
    var m :- Lift(ParseHeader(ChunkInfoHeaderLayout, buf));
    ParseHeaderTyped(ChunkInfoHeaderLayout, buf);
    var version :- Lift(NeedU32(m, VersionName));
    var chunkPos :- Lift(NeedU64(m, Headers.ChunkPosName));
    var startTime :- Lift(NeedU64(m, Headers.StartTimeName));
    var endTime :- Lift(NeedU64(m, Headers.EndTimeName));
    var count :- Lift(NeedU32(m, ConnectionCountName));
    Ok(ChunkInfoHeaderRecord(version, chunkPos, startTime, endTime, count))
  }

  /** The record of a chunk-info entry of the older reader. */
  datatype ChunkInfo = ChunkInfo(conn: u32, count: u32)

  /** Chunk info has no `op` case. */
  const ChunkInfoLayout: Layout := Layout(None, map[Headers.ConnName := AsU32, Headers.CountName := AsU32])

  /** `ChunkInfo::from`. */
  function ChunkInfoFrom(buf: seq<byte>): (r: Result<ChunkInfo, IoFailure>)
    ensures ParseHeader(ChunkInfoLayout, buf).Err? ==> r == Err(AsIo(ParseHeader(ChunkInfoLayout, buf).error))
    ensures r.Ok? <==> ParseHeader(ChunkInfoLayout, buf).Ok?
                       && var m := ParseHeader(ChunkInfoLayout, buf).value;
                       Headers.ConnName in m && Headers.CountName in m
    ensures r.Ok? ==> var m := ParseHeader(ChunkInfoLayout, buf).value;
                      && m[Headers.ConnName] == U32(r.value.conn)
                      && m[Headers.CountName] == U32(r.value.count)
    ensures r.Err? && ParseHeader(ChunkInfoLayout, buf).Ok? ==> r.error == IoError(InvalidData)
  {
    var m :- Lift(ParseHeader(ChunkInfoLayout, buf));
    ParseHeaderTyped(ChunkInfoLayout, buf);
    var conn :- Lift(NeedU32(m, Headers.ConnName));
    var count :- Lift(NeedU32(m, Headers.CountName));
    Ok(ChunkInfo(conn, count))
  }

  /** The header of a message of the older reader: its time is a plain u64 value. */
  datatype MessageData = MessageData(conn: u32, time: u64)

  /** Message data has no `op` case. */
  const MessageDataLayout: Layout := Layout(None, map[Headers.ConnName := AsU32, Headers.TimeName := AsU64])

  /** `MessageData::from`. */
  function MessageDataFrom(buf: seq<byte>): (r: Result<MessageData, IoFailure>)
    ensures ParseHeader(MessageDataLayout, buf).Err? ==> r == Err(AsIo(ParseHeader(MessageDataLayout, buf).error))
    ensures r.Ok? <==> ParseHeader(MessageDataLayout, buf).Ok?
                       && var m := ParseHeader(MessageDataLayout, buf).value;
                       Headers.ConnName in m && Headers.TimeName in m
    ensures r.Ok? ==> var m := ParseHeader(MessageDataLayout, buf).value;
                      && m[Headers.ConnName] == U32(r.value.conn)
                      && m[Headers.TimeName] == U64(r.value.time)
    ensures r.Err? && ParseHeader(MessageDataLayout, buf).Ok? ==> r.error == IoError(InvalidData)
  {
    var m :- Lift(ParseHeader(MessageDataLayout, buf));
    ParseHeaderTyped(MessageDataLayout, buf);
    var conn :- Lift(NeedU32(m, Headers.ConnName));
    var time :- Lift(NeedU64(m, Headers.TimeName));
    Ok(MessageData(conn, time))
  }

  // ------------------------------------------------------------ field sets

  /** A header holding a field that its parser does not know is rejected. */
  lemma UnknownFieldRejected(layout: Layout, buf: seq<byte>, k: nat)
    requires Fields.SplitFields(buf, 0).Ok?
    requires k < |Fields.SplitFields(buf, 0).value|
    requires var n := Fields.SplitFields(buf, 0).value[k].name;
             n !in layout.decoders && !(layout.op.Some? && n == Fields.OpName)
    ensures ParseHeader(layout, buf).Err?
  {
    var fs := Fields.SplitFields(buf, 0).value;
    FoldFromIsFoldSeq(layout, buf, 0, map[]);
    FoldSeqOk(layout, fs, map[]);
    assert Check(layout, fs[k]) == Err(UnexpectedField);
  }

  /**
   * Connection data holding a `type` field, which the newer reader stores, is
   * rejected.
   */
  lemma ConnectionDataRejectsType(buf: seq<byte>, k: nat, connectionId: u32, topic: seq<byte>)
    requires Fields.SplitFields(buf, 0).Ok?
    requires k < |Fields.SplitFields(buf, 0).value|
    requires Fields.SplitFields(buf, 0).value[k].name == Headers.TypeName
    ensures ConnectionDataFrom(buf, connectionId, topic).Err?
  {
    TypeIsUnknown();
    UnknownFieldRejected(ConnectionDataLayout, buf, k);
  }

  lemma TypeIsUnknown()
    ensures Headers.TypeName !in ConnectionDataLayout.decoders && ConnectionDataLayout.op.None?
  {
  }

  /** A chunk-info entry holding an `op` field is rejected. */
  lemma ChunkInfoRejectsOp(buf: seq<byte>, k: nat)
    requires Fields.SplitFields(buf, 0).Ok?
    requires k < |Fields.SplitFields(buf, 0).value|
    requires Fields.SplitFields(buf, 0).value[k].name == Fields.OpName
    ensures ChunkInfoFrom(buf).Err?
  {
    OpIsUnknown();
    UnknownFieldRejected(ChunkInfoLayout, buf, k);
  }

  /** A message-data header holding an `op` field, as every written one does, is rejected. */
  lemma MessageDataRejectsOp(buf: seq<byte>, k: nat)
    requires Fields.SplitFields(buf, 0).Ok?
    requires k < |Fields.SplitFields(buf, 0).value|
    requires Fields.SplitFields(buf, 0).value[k].name == Fields.OpName
    ensures MessageDataFrom(buf).Err?
  {
    OpIsUnknown();
    UnknownFieldRejected(MessageDataLayout, buf, k);
  }

  lemma OpIsUnknown()
    ensures Fields.OpName !in ChunkInfoLayout.decoders && ChunkInfoLayout.op.None?
    ensures Fields.OpName !in MessageDataLayout.decoders && MessageDataLayout.op.None?
  {
  }

  /** The older reader cannot read a message-data header the newer one reads back. */
  lemma WrittenMessageDataRejected(h: Headers.MessageDataHeaderRecord)
    ensures Headers.MessageDataHeaderFrom(Fields.EncodeFields(Headers.MessageDataHeaderFields(h))) == Ok(h)
    ensures MessageDataFrom(Fields.EncodeFields(Headers.MessageDataHeaderFields(h))).Err?
  {
    Headers.MessageDataHeaderRoundTrip(h);
    var fs := Headers.MessageDataHeaderFields(h);
    var buf := Fields.EncodeFields(fs);
    MessageDataHeaderEncodable(h);
    assert [] + buf == buf;
    Fields.SplitFieldsRoundTrip([], fs);
    MessageDataRejectsOp(buf, 2);
  }

  lemma MessageDataHeaderEncodable(h: Headers.MessageDataHeaderRecord)
    ensures var fs := Headers.MessageDataHeaderFields(h);
            && |fs| == 3 && fs[2].name == Fields.OpName
            && forall j | 0 <= j < |fs| :: Fields.Encodable(fs[j])
  {
  }

  // ------------------------------------------------------------- round trips

  function ChunkInfoFields(c: ChunkInfo): seq<Fields.HeaderField> {
    [ Fields.HeaderField(Headers.ConnName, LeBytes(c.conn, 4)),
      Fields.HeaderField(Headers.CountName, LeBytes(c.count, 4)) ]
  }

  /** A written chunk-info entry parses back to itself. */
  lemma ChunkInfoRoundTrip(c: ChunkInfo)
    ensures ChunkInfoFrom(Fields.EncodeFields(ChunkInfoFields(c))) == Ok(c)
  {
    var fs := ChunkInfoFields(c);
    DecodeRoundTrip(c.conn, RosTime.ZERO, []);
    DecodeRoundTrip(c.count, RosTime.ZERO, []);
    assert Check(ChunkInfoLayout, fs[0]) == Ok(Some(U32(c.conn)));
    assert Check(ChunkInfoLayout, fs[1]) == Ok(Some(U32(c.count)));
    assert forall k | 0 <= k < |fs| :: Fields.Encodable(fs[k]);
    assert DistinctNames(fs);
    ParseEncodedHeader(ChunkInfoLayout, fs);
    var m := ParseHeader(ChunkInfoLayout, Fields.EncodeFields(fs)).value;
    assert m[Headers.ConnName] == U32(c.conn) by { assert fs[0].name == Headers.ConnName; }
    assert m[Headers.CountName] == U32(c.count) by { assert fs[1].name == Headers.CountName; }
  }

  function MessageDataFields(d: MessageData): seq<Fields.HeaderField> {
    [ Fields.HeaderField(Headers.ConnName, LeBytes(d.conn, 4)),
      Fields.HeaderField(Headers.TimeName, LeBytes(d.time, 8)) ]
  }

  /** A message-data header written without `op` parses back to itself. */
  lemma MessageDataRoundTrip(d: MessageData)
    ensures MessageDataFrom(Fields.EncodeFields(MessageDataFields(d))) == Ok(d)
  {
    var fs := MessageDataFields(d);
    DecodeRoundTrip(d.conn, RosTime.ZERO, []);
    DecodeRoundTrip(d.time, RosTime.ZERO, []);
    assert Check(MessageDataLayout, fs[0]) == Ok(Some(U32(d.conn)));
    assert Check(MessageDataLayout, fs[1]) == Ok(Some(U64(d.time)));
    assert forall k | 0 <= k < |fs| :: Fields.Encodable(fs[k]);
    assert DistinctNames(fs);
    ParseEncodedHeader(MessageDataLayout, fs);
    var m := ParseHeader(MessageDataLayout, Fields.EncodeFields(fs)).value;
    assert m[Headers.ConnName] == U32(d.conn) by { assert fs[0].name == Headers.ConnName; }
    assert m[Headers.TimeName] == U64(d.time) by { assert fs[1].name == Headers.TimeName; }
  }

  function ChunkInfoHeaderFields(h: ChunkInfoHeaderRecord): seq<Fields.HeaderField> {
    [ Fields.HeaderField(VersionName, LeBytes(h.version, 4)),
      Fields.HeaderField(Headers.ChunkPosName, LeBytes(h.chunkPos, 8)),
      Fields.HeaderField(Headers.StartTimeName, LeBytes(h.startTime, 8)),
      Fields.HeaderField(Headers.EndTimeName, LeBytes(h.endTime, 8)),
      Fields.HeaderField(ConnectionCountName, LeBytes(h.connectionCount, 4)),
      Headers.OpField(Fields.ChunkInfoHeader) ]
  }

  lemma ChunkInfoHeaderChecks(h: ChunkInfoHeaderRecord)
    ensures var fs := ChunkInfoHeaderFields(h);
            && Check(ChunkInfoHeaderLayout, fs[0]) == Ok(Some(U32(h.version)))
            && Check(ChunkInfoHeaderLayout, fs[1]) == Ok(Some(U64(h.chunkPos)))
            && Check(ChunkInfoHeaderLayout, fs[2]) == Ok(Some(U64(h.startTime)))
            && Check(ChunkInfoHeaderLayout, fs[3]) == Ok(Some(U64(h.endTime)))
            && Check(ChunkInfoHeaderLayout, fs[4]) == Ok(Some(U32(h.connectionCount)))
            && Check(ChunkInfoHeaderLayout, fs[5]) == Ok(None)
  {
    DecodeRoundTrip(h.version, RosTime.ZERO, []);
    DecodeRoundTrip(h.chunkPos, RosTime.ZERO, []);
    DecodeRoundTrip(h.startTime, RosTime.ZERO, []);
    DecodeRoundTrip(h.endTime, RosTime.ZERO, []);
    DecodeRoundTrip(h.connectionCount, RosTime.ZERO, []);
  }

  lemma ChunkInfoHeaderShape(h: ChunkInfoHeaderRecord)
    ensures var fs := ChunkInfoHeaderFields(h);
            (forall k | 0 <= k < |fs| :: Fields.Encodable(fs[k])) && DistinctNames(fs)
  {
  }

  /** A written chunk-info header, its times as u64 values, parses back to itself. */
  lemma ChunkInfoHeaderRoundTrip(h: ChunkInfoHeaderRecord)
    ensures ChunkInfoHeaderFrom(Fields.EncodeFields(ChunkInfoHeaderFields(h))) == Ok(h)
  {
    var fs := ChunkInfoHeaderFields(h);
    var l := ChunkInfoHeaderLayout;
    ChunkInfoHeaderChecks(h);
    ChunkInfoHeaderShape(h);
    ParseEncodedHeader(l, fs);
    var m := ParseHeader(l, Fields.EncodeFields(fs)).value;
    assert m[VersionName] == U32(h.version) by { assert fs[0].name == VersionName; }
    assert m[Headers.ChunkPosName] == U64(h.chunkPos) by { assert fs[1].name == Headers.ChunkPosName; }
    assert m[Headers.StartTimeName] == U64(h.startTime) by { assert fs[2].name == Headers.StartTimeName; }
    assert m[Headers.EndTimeName] == U64(h.endTime) by { assert fs[3].name == Headers.EndTimeName; }
    assert m[ConnectionCountName] == U32(h.connectionCount) by { assert fs[4].name == ConnectionCountName; }
  }

  function ConnectionDataFields(c: ConnectionData, latchingValue: seq<byte>): seq<Fields.HeaderField> {
    [ Fields.HeaderField(Headers.TopicName, c.topic),
      Fields.HeaderField(Headers.Md5sumName, c.md5sum),
      Fields.HeaderField(Headers.MessageDefinitionName, c.messageDefinition),
      Fields.HeaderField(Headers.LatchingName, latchingValue) ]
    + (if c.callerId.Some? then [Fields.HeaderField(Headers.CalleridName, c.callerId.value)] else [])
  }

  lemma ConnectionDataChecks(c: ConnectionData, latchingValue: seq<byte>, dataTopic: seq<byte>)
    requires |dataTopic| < 0x1000 && |c.md5sum| < 0x1000
    requires |c.messageDefinition| < 0x1000 && |latchingValue| < 0x1000
    requires c.callerId.Some? ==> |c.callerId.value| < 0x1000
    requires c.latching <==> latchingValue == One
    ensures var fs := ConnectionDataFields(c.(topic := dataTopic), latchingValue);
            && (forall k | 0 <= k < |fs| :: Check(ConnectionDataLayout, fs[k]).Ok?)
            && Check(ConnectionDataLayout, fs[1]) == Ok(Some(Text(c.md5sum)))
            && Check(ConnectionDataLayout, fs[2]) == Ok(Some(Text(c.messageDefinition)))
            && Check(ConnectionDataLayout, fs[3]) == Ok(Some(Flag(c.latching)))
            && (c.callerId.Some? ==> Check(ConnectionDataLayout, fs[4]) == Ok(Some(Text(c.callerId.value))))
  {
    var fs := ConnectionDataFields(c.(topic := dataTopic), latchingValue);
    var l := ConnectionDataLayout;
    assert Check(l, fs[0]) == Ok(None);
    assert Check(l, fs[1]) == Ok(Some(Text(c.md5sum)));
    assert Check(l, fs[2]) == Ok(Some(Text(c.messageDefinition)));
    assert Check(l, fs[3]) == Ok(Some(Flag(c.latching)));
    if c.callerId.Some? {
      assert Check(l, fs[4]) == Ok(Some(Text(c.callerId.value)));
    }
  }

  lemma ConnectionDataShape(c: ConnectionData, latchingValue: seq<byte>, dataTopic: seq<byte>)
    requires |dataTopic| < 0x1000 && |c.md5sum| < 0x1000
    requires |c.messageDefinition| < 0x1000 && |latchingValue| < 0x1000
    requires c.callerId.Some? ==> |c.callerId.value| < 0x1000
    ensures var fs := ConnectionDataFields(c.(topic := dataTopic), latchingValue);
            (forall k | 0 <= k < |fs| :: Fields.Encodable(fs[k])) && DistinctNames(fs)
  {
  }

  /**
   * Written connection data parses back to itself: the header's topic is the
   * one used, and `latching` is set exactly when its value is the byte `1`.
   */
  lemma ConnectionDataRoundTrip(c: ConnectionData, latchingValue: seq<byte>, dataTopic: seq<byte>)
    requires |dataTopic| < 0x1000 && |c.md5sum| < 0x1000
    requires |c.messageDefinition| < 0x1000 && |latchingValue| < 0x1000
    requires c.callerId.Some? ==> |c.callerId.value| < 0x1000
    requires c.latching <==> latchingValue == One
    ensures ConnectionDataFrom(Fields.EncodeFields(ConnectionDataFields(c.(topic := dataTopic), latchingValue)),
                               c.connectionId, c.topic) == Ok(c)
  {
    ConnectionDataMap(c, latchingValue, dataTopic);
  }

  /** The header map of written connection data holds the record's values. */
  lemma ConnectionDataMap(c: ConnectionData, latchingValue: seq<byte>, dataTopic: seq<byte>)
    requires |dataTopic| < 0x1000 && |c.md5sum| < 0x1000
    requires |c.messageDefinition| < 0x1000 && |latchingValue| < 0x1000
    requires c.callerId.Some? ==> |c.callerId.value| < 0x1000
    requires c.latching <==> latchingValue == One
    ensures var buf := Fields.EncodeFields(ConnectionDataFields(c.(topic := dataTopic), latchingValue));
            && ParseHeader(ConnectionDataLayout, buf).Ok?
            && var m := ParseHeader(ConnectionDataLayout, buf).value;
            && Headers.Md5sumName in m && m[Headers.Md5sumName] == Text(c.md5sum)
            && Headers.MessageDefinitionName in m && m[Headers.MessageDefinitionName] == Text(c.messageDefinition)
            && Headers.LatchingName in m && m[Headers.LatchingName] == Flag(c.latching)
            && (c.callerId.Some? ==> Headers.CalleridName in m && m[Headers.CalleridName] == Text(c.callerId.value))
            && (c.callerId.None? ==> Headers.CalleridName !in m)
  {
    var fs := ConnectionDataFields(c.(topic := dataTopic), latchingValue);
    var l := ConnectionDataLayout;
    ConnectionDataChecks(c, latchingValue, dataTopic);
    ConnectionDataShape(c, latchingValue, dataTopic);
    ParseHeaderOfEncoded(l, fs);
    FoldSeqDistinct(l, fs, map[]);
    var m := ParseHeader(l, Fields.EncodeFields(fs)).value;
    assert m[Headers.Md5sumName] == Text(c.md5sum) by { assert fs[1].name == Headers.Md5sumName; }
    assert m[Headers.MessageDefinitionName] == Text(c.messageDefinition) by {
      assert fs[2].name == Headers.MessageDefinitionName;
    }
    assert m[Headers.LatchingName] == Flag(c.latching) by { assert fs[3].name == Headers.LatchingName; }
    if c.callerId.Some? {
      assert m[Headers.CalleridName] == Text(c.callerId.value) by { assert fs[4].name == Headers.CalleridName; }
    } else {
      assert Headers.CalleridName !in m;
    }
  }

  // ----------------------------------------------------------- reader steps

  /** The 13-byte version line every version 2.0 bag opens with. */
  function VersionCheck(file: seq<byte>): (r: Result<Unit, IoFailure>)
    ensures r.Ok? <==> |file| >= |Fields.Magic| && file[..|Fields.Magic|] == Fields.Magic
    ensures r == Err(IoError(UnexpectedEof)) <==> |file| < |Fields.Magic|
    ensures r.Err? ==> r.error in {IoError(UnexpectedEof), IoError(InvalidData)}
  {
    if |file| < |Fields.Magic| then Err(IoError(UnexpectedEof))
    else if file[..|Fields.Magic|] == Fields.Magic then Ok(Unit)
    else Err(IoError(InvalidData))
  }

  /** The older check accepts exactly the files the newer one accepts. */
  lemma VersionChecksAgree(file: seq<byte>)
    ensures VersionCheck(file).Ok? <==> Fields.VersionCheck(file).Ok?
  {
  }

  /**
   * `get_lengthed_bytes` over a reader at `pos`: both `read_exact` calls fail
   * with an unexpected end of file when the bytes run out.
   */
  function ReadLengthedBytes(file: seq<byte>, pos: nat): (r: Result<(seq<byte>, nat), IoFailure>)
    ensures r.Ok? <==> Parsing.BlockFits(file, pos)
    ensures r.Ok? ==> && r.value.1 == pos + 4 + LeValue(file[pos..pos + 4])
                      && r.value.0 == file[pos + 4..(r.value.1)]
    ensures r.Err? ==> r.error == IoError(UnexpectedEof)
  {
    if pos + 4 > |file| then Err(IoError(UnexpectedEof))
    else
      var len := LeValue(file[pos..pos + 4]);
      if pos + 4 + len > |file| then Err(IoError(UnexpectedEof))
      else Ok((file[pos + 4..pos + 4 + len], pos + 4 + len))
  }

  /**
   * `parse_bag_header`: the length-prefixed bag header; an unindexed bag is
   * invalid data, and otherwise the reader moves to `index_pos`.
   */
  function ParseBagHeader(file: seq<byte>, pos: nat): (r: Result<(Headers.BagHeaderRecord, nat), IoFailure>)
    ensures r.Ok? <==> && ReadLengthedBytes(file, pos).Ok?
                       && Headers.BagHeaderFrom(ReadLengthedBytes(file, pos).value.0).Ok?
                       && Headers.BagHeaderFrom(ReadLengthedBytes(file, pos).value.0).value.indexPos != 0
    ensures r.Ok? ==> && r.value.0 == Headers.BagHeaderFrom(ReadLengthedBytes(file, pos).value.0).value
                      && r.value.1 == r.value.0.indexPos
    ensures ReadLengthedBytes(file, pos).Ok?
            && Headers.BagHeaderFrom(ReadLengthedBytes(file, pos).value.0).Ok?
            && Headers.BagHeaderFrom(ReadLengthedBytes(file, pos).value.0).value.indexPos == 0
            ==> r == Err(IoError(InvalidData))
  {
    var header :- ReadLengthedBytes(file, pos);
    var h :- BagHeaderFrom(header.0);
    if h.indexPos == 0 then Err(IoError(InvalidData))
    else Ok((h, h.indexPos as nat))
  }

  /** A written, indexed bag header is read back, and the reader moves to its index. */
  lemma ParseBagHeaderRoundTrip(h: Headers.BagHeaderRecord, pre: seq<byte>, post: seq<byte>)
    requires h.indexPos != 0
    ensures var hdr := Fields.EncodeFields(Headers.BagHeaderFields(h));
            ParseBagHeader(pre + LeBytes(|hdr|, 4) + hdr + post, |pre|) == Ok((h, h.indexPos as nat))
  {
    var hdr := Fields.EncodeFields(Headers.BagHeaderFields(h));
    BagHeaderShort(h);
    Parsing.GetLengthedBytesRoundTrip(pre, hdr, post);
    Headers.BagHeaderRoundTrip(h);
  }

  lemma BagHeaderShort(h: Headers.BagHeaderRecord)
    ensures |Fields.EncodeFields(Headers.BagHeaderFields(h))| < 100
  {
    var fs := Headers.BagHeaderFields(h);
    assert Fields.EncodeFields(fs) == Fields.EncodeField(fs[0]) + Fields.EncodeFields(fs[1..]);
    assert Fields.EncodeFields(fs[1..]) == Fields.EncodeField(fs[1]) + Fields.EncodeFields(fs[2..]);
    assert Fields.EncodeFields(fs[2..]) == Fields.EncodeField(fs[2]) + Fields.EncodeFields(fs[3..]);
    assert Fields.EncodeFields(fs[3..]) == Fields.EncodeField(fs[3]) + Fields.EncodeFields(fs[4..]);
  }

  /**
   * `parse_connection`: a length-prefixed connection header, then the
   * length-prefixed connection data, read with the header's id and topic.
   * It succeeds exactly when both reads and both parsers do, and fails
   * with the error of the first step that fails.
   */
  function ParseConnection(file: seq<byte>, pos: nat): (r: Result<(ConnectionData, nat), IoFailure>)
    ensures r.Ok? <==>
              && ReadLengthedBytes(file, pos).Ok?
              && var header := ReadLengthedBytes(file, pos).value;
              && ConnectionHeaderFrom(header.0).Ok?
              && ReadLengthedBytes(file, header.1).Ok?
              && var h := ConnectionHeaderFrom(header.0).value;
              && ConnectionDataFrom(ReadLengthedBytes(file, header.1).value.0, h.connectionId, h.topic).Ok?
    ensures r.Ok? ==>
              && var header := ReadLengthedBytes(file, pos).value;
              && var h := ConnectionHeaderFrom(header.0).value;
              && var data := ReadLengthedBytes(file, header.1).value;
              && ConnectionDataFrom(data.0, h.connectionId, h.topic) == Ok(r.value.0)
              && r.value.0.connectionId == h.connectionId
              && r.value.0.topic == h.topic
              && r.value.1 == data.1
    ensures r.Ok? ==> pos + 8 <= r.value.1 <= |file|
    ensures ReadLengthedBytes(file, pos).Err? ==> r == Err(IoError(UnexpectedEof))
    ensures ReadLengthedBytes(file, pos).Ok? && ConnectionHeaderFrom(ReadLengthedBytes(file, pos).value.0).Err? ==>
              r == Err(ConnectionHeaderFrom(ReadLengthedBytes(file, pos).value.0).error)
  {
    var header :- ReadLengthedBytes(file, pos);
    var h :- ConnectionHeaderFrom(header.0);
    var data :- ReadLengthedBytes(file, header.1);
    var c :- ConnectionDataFrom(data.0, h.connectionId, h.topic);
    Ok((c, data.1))
  }

  /**
   * A written connection record, its header block followed by its data
   * block, is read back as the connection, with the cursor just past the
   * data.
   */
  lemma ParseConnectionRoundTrip(h: Headers.ConnectionHeaderRecord, c: ConnectionData, latchingValue: seq<byte>,
                                 dataTopic: seq<byte>, pre: seq<byte>, post: seq<byte>)
    requires c.connectionId == h.connectionId && c.topic == h.topic && |h.topic| < 0x1000
    requires |dataTopic| < 0x1000 && |c.md5sum| < 0x1000
    requires |c.messageDefinition| < 0x1000 && |latchingValue| < 0x1000
    requires c.callerId.Some? ==> |c.callerId.value| < 0x1000
    requires c.latching <==> latchingValue == One
    ensures var hdr := Fields.EncodeFields(Headers.ConnectionHeaderFields(h));
            var dat := Fields.EncodeFields(ConnectionDataFields(c.(topic := dataTopic), latchingValue));
            ParseConnection(pre + LeBytes(|hdr|, 4) + hdr + LeBytes(|dat|, 4) + dat + post, |pre|)
            == Ok((c, |pre| + 8 + |hdr| + |dat|))
  {
    var hdr := Fields.EncodeFields(Headers.ConnectionHeaderFields(h));
    var dat := Fields.EncodeFields(ConnectionDataFields(c.(topic := dataTopic), latchingValue));
    Fields.EncodeFieldsShort(Headers.ConnectionHeaderFields(h));
    Fields.EncodeFieldsShort(ConnectionDataFields(c.(topic := dataTopic), latchingValue));
    var lh, ld := LeBytes(|hdr|, 4), LeBytes(|dat|, 4);
    var file := pre + lh + hdr + ld + dat + post;
    TwoBlocks(pre, hdr, dat, post, lh, ld, file, |pre| + 4 + |hdr|, |pre| + 8 + |hdr| + |dat|);
    ParseConnectionOfBlocks(h, c, latchingValue, dataTopic, file, |pre|, hdr, dat,
                            |pre| + 4 + |hdr|, |pre| + 8 + |hdr| + |dat|);
  }

  /** Blocks holding a written connection header and its data read back as the connection. */
  lemma ParseConnectionOfBlocks(h: Headers.ConnectionHeaderRecord, c: ConnectionData, latchingValue: seq<byte>,
                                dataTopic: seq<byte>, file: seq<byte>, pos: nat, hdr: seq<byte>, dat: seq<byte>,
                                mid: nat, next: nat)
    requires c.connectionId == h.connectionId && c.topic == h.topic && |h.topic| < 0x1000
    requires |dataTopic| < 0x1000 && |c.md5sum| < 0x1000
    requires |c.messageDefinition| < 0x1000 && |latchingValue| < 0x1000
    requires c.callerId.Some? ==> |c.callerId.value| < 0x1000
    requires c.latching <==> latchingValue == One
    requires hdr == Fields.EncodeFields(Headers.ConnectionHeaderFields(h))
    requires dat == Fields.EncodeFields(ConnectionDataFields(c.(topic := dataTopic), latchingValue))
    requires ReadLengthedBytes(file, pos) == Ok((hdr, mid))
    requires ReadLengthedBytes(file, mid) == Ok((dat, next))
    ensures ParseConnection(file, pos) == Ok((c, next))
  {
    ConnectionHeaderRoundTrip(h, hdr);
    ConnectionDataRoundTrip(c, latchingValue, dataTopic);
  }

  lemma ConnectionHeaderRoundTrip(h: Headers.ConnectionHeaderRecord, hdr: seq<byte>)
    requires |h.topic| < 0x1000 && hdr == Fields.EncodeFields(Headers.ConnectionHeaderFields(h))
    ensures ConnectionHeaderFrom(hdr) == Ok(h)
  {
    Headers.ConnectionHeaderRoundTrip(h);
  }

  /** Two length-prefixed blocks in a row are read one after the other. */
  lemma TwoBlocks(pre: seq<byte>, a: seq<byte>, b: seq<byte>, post: seq<byte>, la: seq<byte>, lb: seq<byte>,
                  file: seq<byte>, mid: nat, next: nat)
    requires |a| < 0x1_0000_0000 && |b| < 0x1_0000_0000
    requires la == LeBytes(|a|, 4) && lb == LeBytes(|b|, 4)
    requires file == pre + la + a + lb + b + post
    requires mid == |pre| + 4 + |a| && next == mid + 4 + |b|
    ensures ReadLengthedBytes(file, |pre|) == Ok((a, mid))
    ensures ReadLengthedBytes(file, mid) == Ok((b, next))
  {
    ConcatRegroup(pre, la, a, lb, b, post, file);
    OneBlock(pre, a, lb + b + post, file, |pre|, mid);
    OneBlock(pre + la + a, b, post, file, mid, next);
  }

  lemma ConcatRegroup(p: seq<byte>, q: seq<byte>, r: seq<byte>, s: seq<byte>, t: seq<byte>, u: seq<byte>, all: seq<byte>)
    requires all == p + q + r + s + t + u
    ensures all == p + q + r + (s + t + u)
  {
  }

  /** A length-prefixed block is read back from where it starts. */
  lemma OneBlock(pre: seq<byte>, a: seq<byte>, post: seq<byte>, file: seq<byte>, pos: nat, end: nat)
    requires |a| < 0x1_0000_0000
    requires file == pre + LeBytes(|a|, 4) + a + post
    requires pos == |pre| && end == pos + 4 + |a|
    ensures ReadLengthedBytes(file, pos) == Ok((a, end))
  {
    Parsing.GetLengthedBytesRoundTrip(pre, a, post);
  }
}
