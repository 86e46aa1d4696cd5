/**
 * The field layer of a record header (frost/src/lib.rs): opcodes, the
 * `len | name=value` field encoding, the opcode lookup and the version line.
 */
module Fields {
  import opened Wrappers
  import opened Errors
  import opened Bytes
  import opened Parsing

  /** The byte `'='` that separates a field's name from its value. */
  const Sep: byte := 0x3D

  /** The record kinds of a version 2.0 bag. */
  datatype OpCode =
    | MessageData
    | BagHeader
    | IndexDataHeader
    | ChunkHeader
    | ChunkInfoHeader
    | ConnectionHeader
  {
    /** The byte that identifies the record kind in the `op` field. */
    function Code(): byte {
      match this
      case MessageData => 0x02
      case BagHeader => 0x03
      case IndexDataHeader => 0x04
      case ChunkHeader => 0x05
      case ChunkInfoHeader => 0x06
      case ConnectionHeader => 0x07
    }
  }

  /** `OpCode::from`: the record kind a byte names, if any. */
  function OpCodeFrom(b: byte): (r: Result<OpCode, ParseError>)
    ensures r.Ok? <==> 0x02 <= b <= 0x07
    ensures r.Ok? ==> r.value.Code() == b
    ensures r.Err? ==> r.error == InvalidOpCode
  {
    match b
    case 0x03 => Ok(BagHeader)
    case 0x05 => Ok(ChunkHeader)
    case 0x07 => Ok(ConnectionHeader)
    case 0x02 => Ok(MessageData)
    case 0x04 => Ok(IndexDataHeader)
    case 0x06 => Ok(ChunkInfoHeader)
    case _ => Err(InvalidOpCode)
  }

  /** Every record kind is recovered from its own code, so the codes are distinct. */
  lemma OpCodeRoundTrip(op: OpCode, other: OpCode)
    ensures OpCodeFrom(op.Code()) == Ok(op)
    ensures op.Code() == other.Code() ==> op == other
  {
  }

  /** Whether `b` occurs in `s`. */
  predicate Contains(s: seq<byte>, b: byte) {
    exists j :: 0 <= j < |s| && s[j] == b
  }

  /** The position of the first `'='` in `buf` at or after `k`. */
  function SepFrom(buf: seq<byte>, k: nat): (r: Option<nat>)
    requires k <= |buf|
    ensures r.Some? <==> exists j :: k <= j < |buf| && buf[j] == Sep
    ensures r.Some? ==> k <= r.value < |buf| && buf[r.value] == Sep
                        && forall j :: k <= j < r.value ==> buf[j] != Sep
    decreases |buf| - k
  {
    if k == |buf| then None
    else if buf[k] == Sep then Some(k)
    else SepFrom(buf, k + 1)
  }

  /** `field_sep_index`: the position of the first `'='`. */
  function FieldSepIndex(buf: seq<byte>): (r: Result<nat, ParseError>)
    ensures r.Ok? <==> Contains(buf, Sep)
    ensures r.Ok? ==> r.value < |buf| && buf[r.value] == Sep && !Contains(buf[..(r.value)], Sep)
    ensures r.Err? ==> r.error == MissingFieldSeparator
  {
    match SepFrom(buf, 0)
    case None => Err(MissingFieldSeparator)
    case Some(k) =>
      assert forall j | 0 <= j < k :: buf[..k][j] == buf[j];
      Ok(k)
  }

  /** The separator of `name = value` is found right after the name. */
  lemma FieldSepIndexOf(name: seq<byte>, value: seq<byte>)
    requires !Contains(name, Sep)
    ensures FieldSepIndex(name + [Sep] + value) == Ok(|name|)
  {
    var s := name + [Sep] + value;
    assert s[|name|] == Sep;
    assert s[..|name|] == name;
  }

  /** The bytes of `hello=banana`. */
  const Hello: seq<byte> := [0x68, 0x65, 0x6C, 0x6C, 0x6F, 0x3D, 0x62, 0x61, 0x6E, 0x61, 0x6E, 0x61]

  /** The bytes of `theresnosep`. */
  const NoSep: seq<byte> := [0x74, 0x68, 0x65, 0x72, 0x65, 0x73, 0x6E, 0x6F, 0x73, 0x65, 0x70]

  /** The examples of the unit test next to `field_sep_index`. */
  lemma FieldSepIndexExamples()
    ensures FieldSepIndex(Hello) == Ok(5)
    ensures FieldSepIndex(Hello[2..8]) == Ok(3)
    ensures FieldSepIndex(NoSep).Err?
  {
    assert Hello == Hello[..5] + [Sep] + Hello[6..];
    FieldSepIndexOf(Hello[..5], Hello[6..]);
    var mid := Hello[2..8];
    assert mid == mid[..3] + [Sep] + mid[4..];
    FieldSepIndexOf(mid[..3], mid[4..]);
  }

  /** One header field: the bytes before and after its first `'='`. */
  datatype HeaderField = HeaderField(name: seq<byte>, value: seq<byte>)

  /** A field and the index just past it. */
  datatype Parsed = Parsed(next: nat, field: HeaderField)

  /**
   * `parse_field`: at `i`, a little-endian length `len`, then `len` bytes that
   * hold `name=value`. Where the Rust code would index out of the buffer the
   * model returns `SliceOutOfRange`.
   */
  function ParseField(buf: seq<byte>, i: nat): (r: Result<Parsed, ParseError>)
    ensures r.Ok? ==> && i + 4 < r.value.next <= |buf|
                      && r.value.next == i + 4 + LeValue(buf[i..i + 4])
                      && buf[i + 4..(r.value.next)] == r.value.field.name + [Sep] + r.value.field.value
                      && !Contains(r.value.field.name, Sep)
    ensures r == Err(BufferTooSmall) <==> !PrefixFits(buf, i)
    ensures r == Err(SliceOutOfRange) <==> PrefixFits(buf, i) && !BlockFits(buf, i)
    ensures r == Err(MissingFieldSeparator) <==>
              BlockFits(buf, i) && !Contains(buf[i + 4..i + 4 + LeValue(buf[i..i + 4])], Sep)
    ensures r.Err? ==> r.error in {BufferTooSmall, SliceOutOfRange, MissingFieldSeparator}
  {
    var len :- ParseLeU32At(buf, i);
    LeValue4(buf[i..i + 4]);
    var start := i + 4;
    if start + len > |buf| then Err(SliceOutOfRange)
    else
      var body := buf[start..start + len];
      var sep :- FieldSepIndex(body);
      assert body == body[..sep] + [Sep] + body[sep + 1..];
      Ok(Parsed(start + len, HeaderField(body[..sep], body[sep + 1..])))
  }

  /** The bytes of one field: its length, then `name=value`. */
  function EncodeField(f: HeaderField): (r: seq<byte>)
    ensures |r| == 4 + |f.name| + 1 + |f.value|
  {
    LeBytes(|f.name| + 1 + |f.value|, 4) + f.name + [Sep] + f.value
  }

  /** A field that `EncodeField` can represent and `parse_field` can split back. */
  predicate Encodable(f: HeaderField) {
    !Contains(f.name, Sep) && |f.name| + 1 + |f.value| < 0x1_0000_0000
  }

  lemma ParseFieldAt(buf: seq<byte>, i: nat, f: HeaderField)
    requires Encodable(f)
    requires i + |EncodeField(f)| <= |buf|
    requires buf[i..i + |EncodeField(f)|] == EncodeField(f)
    ensures ParseField(buf, i) == Ok(Parsed(i + |EncodeField(f)|, f))
  {
    var len := |f.name| + 1 + |f.value|;
    var enc := EncodeField(f);
    assert buf[i..i + 4] == enc[..4] == LeBytes(len, 4);
    assert Pow256(4) == 0x1_0000_0000;
    LeValueOfLeBytes(len, 4);
    assert buf[i + 4..i + 4 + len] == enc[4..] == f.name + [Sep] + f.value;
    ParseFieldOfParts(buf, i, len, f);
  }

  /** A length prefix `len` followed by `len` bytes of `name=value` parses as that field. */
  lemma ParseFieldOfParts(buf: seq<byte>, i: nat, len: nat, f: HeaderField)
    requires !Contains(f.name, Sep) && len == |f.name| + 1 + |f.value|
    requires i + 4 + len <= |buf| && LeValue(buf[i..i + 4]) == len
    requires buf[i + 4..i + 4 + len] == f.name + [Sep] + f.value
    ensures ParseField(buf, i) == Ok(Parsed(i + 4 + len, f))
  {
    LeValue4(buf[i..i + 4]);
    FieldSepIndexOf(f.name, f.value);
    var body := f.name + [Sep] + f.value;
    assert body[..|f.name|] == f.name && body[|f.name| + 1..] == f.value;
  }

  /** `parse_field` reads back an encoded field wherever it sits. */
  lemma ParseFieldRoundTrip(pre: seq<byte>, f: HeaderField, post: seq<byte>)
    requires Encodable(f)
    ensures ParseField(pre + EncodeField(f) + post, |pre|) == Ok(Parsed(|pre| + |EncodeField(f)|, f))
  {
    ParseFieldOfPieces(pre, EncodeField(f), post, f);
  }

  lemma ParseFieldOfPieces(pre: seq<byte>, enc: seq<byte>, post: seq<byte>, f: HeaderField)
    requires Encodable(f) && enc == EncodeField(f)
    ensures ParseField(pre + enc + post, |pre|) == Ok(Parsed(|pre| + |enc|, f))
  {
    var buf := pre + enc + post;
    SliceOfConcat(pre, enc, [], post);
    assert buf[|pre|..|pre| + |enc|] == enc;
    ParseFieldAt(buf, |pre|, f);
  }

  /** The bytes of a header: its fields, one after the other. */
  function EncodeFields(fs: seq<HeaderField>): (r: seq<byte>)
    ensures |fs| > 0 ==> |r| > 0
  {
    if |fs| == 0 then [] else EncodeField(fs[0]) + EncodeFields(fs[1..])
  }

  /** A few short fields encode to a block whose length fits the 4-byte length prefix. */
  lemma {:induction false} EncodeFieldsShort(fs: seq<HeaderField>)
    requires forall k | 0 <= k < |fs| :: |fs[k].name| + |fs[k].value| < 0x2000
    ensures |EncodeFields(fs)| <= |fs| * 0x2005
  {
    if |fs| > 0 {
      EncodeFieldsShort(fs[1..]);
    }
  }

  /**
   * The fields of a header from `i` on, as every header loop visits them: one
   * field is always parsed, and the loop stops once the index reaches the end.
   */
  function SplitFields(buf: seq<byte>, i: nat): (r: Result<seq<HeaderField>, ParseError>)
    ensures r.Ok? ==> |r.value| > 0
    decreases |buf| - i
  {
    var p :- ParseField(buf, i);
    if p.next >= |buf| then Ok([p.field])
    else
      var rest :- SplitFields(buf, p.next);
      Ok([p.field] + rest)
  }

  /** One step of the header loop, as `SplitFields` takes it. */
  lemma SplitFieldsStep(buf: seq<byte>, i: nat, p: Parsed)
    requires ParseField(buf, i) == Ok(p)
    ensures p.next >= |buf| ==> SplitFields(buf, i) == Ok([p.field])
    ensures p.next < |buf| && SplitFields(buf, p.next).Ok? ==>
              SplitFields(buf, i) == Ok([p.field] + SplitFields(buf, p.next).value)
  {
  }

  /** Splitting a buffer whose bytes from `i` on encode a non-empty list of fields. */
  lemma {:induction false} SplitFieldsAt(buf: seq<byte>, i: nat, fs: seq<HeaderField>)
    requires |fs| > 0
    requires forall k | 0 <= k < |fs| :: Encodable(fs[k])
    requires i <= |buf| && buf[i..] == EncodeFields(fs)
    ensures SplitFields(buf, i) == Ok(fs)
    decreases |fs|
  {
    var head := EncodeField(fs[0]);
    var tail := EncodeFields(fs[1..]);
    var j := i + |head|;
    assert buf[i..j] == head by {
      assert buf[i..j] == buf[i..][..|head|];
    }
    ParseFieldAt(buf, i, fs[0]);
    var p := Parsed(j, fs[0]);
    SplitFieldsStep(buf, i, p);
    if |fs| > 1 {
      assert buf[j..] == tail by {
        assert buf[j..] == buf[i..][|head|..];
      }
      SplitFieldsAt(buf, j, fs[1..]);
      assert fs == [fs[0]] + fs[1..];
    } else {
      assert fs[1..] == [];
      assert |buf| == j;
      assert fs == [fs[0]];
    }
  }

  /** Splitting the bytes of a non-empty list of fields returns that list. */
  lemma SplitFieldsRoundTrip(pre: seq<byte>, fs: seq<HeaderField>)
    requires |fs| > 0
    requires forall k | 0 <= k < |fs| :: Encodable(fs[k])
    ensures SplitFields(pre + EncodeFields(fs), |pre|) == Ok(fs)
  {
    assert (pre + EncodeFields(fs))[|pre|..] == EncodeFields(fs);
    SplitFieldsAt(pre + EncodeFields(fs), |pre|, fs);
  }

  /** `op` as the bytes of a field name. */
  const OpName: seq<byte> := [0x6F, 0x70]

  /** The opcode named by the first `op` field in a list of fields. */
  function FirstOp(fs: seq<HeaderField>): Result<OpCode, ParseError> {
    if |fs| == 0 then Err(MissingHeaderOp)
    else if fs[0].name == OpName then
      var op :- ParseU8(fs[0].value);
      OpCodeFrom(op)
    else FirstOp(fs[1..])
  }

  function ReadHeaderOpFrom(buf: seq<byte>, i: nat): Result<OpCode, ParseError>
    decreases |buf| - i
  {
    var p :- ParseField(buf, i);
    if p.field.name == OpName then
      var op :- ParseU8(p.field.value);
      OpCodeFrom(op)
    else if p.next >= |buf| then Err(MissingHeaderOp)
    else ReadHeaderOpFrom(buf, p.next)
  }

  /** `read_header_op`: the record kind named by the header's first `op` field. */
  function ReadHeaderOp(buf: seq<byte>): Result<OpCode, ParseError> {
    ReadHeaderOpFrom(buf, 0)
  }

  /**
   * On a header whose fields all split, the opcode read is the one of the
   * first `op` field in the list; fields after it are never looked at.
   */
  lemma {:induction false} ReadHeaderOpIsFirstOp(buf: seq<byte>, i: nat)
    requires SplitFields(buf, i).Ok?
    ensures ReadHeaderOpFrom(buf, i) == FirstOp(SplitFields(buf, i).value)
    decreases |buf| - i
  {
    var p := ParseField(buf, i).value;
    var fs := SplitFields(buf, i).value;
    assert fs[0] == p.field;
    if p.field.name != OpName && p.next < |buf| {
      ReadHeaderOpIsFirstOp(buf, p.next);
      assert fs[1..] == SplitFields(buf, p.next).value;
    }
  }

  /**
   * The header loop stops at the first `op` field: after fields that are not
   * `op`, the opcode read is decided by the `op` field's value alone, whatever
   * bytes follow it.
   */
  lemma ReadHeaderOpStopsAtOp(pre: seq<HeaderField>, f: HeaderField, rest: seq<byte>)
    requires forall k | 0 <= k < |pre| :: Encodable(pre[k]) && pre[k].name != OpName
    requires Encodable(f) && f.name == OpName
    ensures ReadHeaderOp(EncodeFields(pre) + EncodeField(f) + rest)
            == (if |f.value| == 0 then Err(BufferTooSmall) else OpCodeFrom(f.value[0]))
  {
    var buf := EncodeFields(pre) + EncodeField(f) + rest;
    var x := EncodeFields(pre) + EncodeField(f);
    assert buf[0..|x|] == x;
    ReadHeaderOpFromAt(buf, 0, pre, f);
  }

  /**
   * From `i` on, `parse_field` meets the fields `pre` one after another and
   * then `f`, and the buffer goes on after each field of `pre`.
   */
  predicate FieldsThen(buf: seq<byte>, i: nat, pre: seq<HeaderField>, f: HeaderField)
    decreases |pre|
  {
    match ParseField(buf, i)
    case Err(_) => false
    case Ok(p) =>
      if |pre| == 0 then p.field == f
      else p.field == pre[0] && p.next < |buf| && FieldsThen(buf, p.next, pre[1..], f)
  }

  /** `ReadHeaderOpStopsAtOp` from any position of a buffer. */
  lemma ReadHeaderOpFromAt(buf: seq<byte>, i: nat, pre: seq<HeaderField>, f: HeaderField)
    requires forall k | 0 <= k < |pre| :: Encodable(pre[k]) && pre[k].name != OpName
    requires Encodable(f) && f.name == OpName
    requires var x := EncodeFields(pre) + EncodeField(f);
             i + |x| <= |buf| && buf[i..i + |x|] == x
    ensures ReadHeaderOpFrom(buf, i) == (if |f.value| == 0 then Err(BufferTooSmall) else OpCodeFrom(f.value[0]))
  {
    AllEncodableOf(pre);
    WindowEncodedAt(buf, i, pre, f);
    EncodedFieldsThen(buf, i, pre, f);
    ReadHeaderOpAfter(buf, i, pre, f);
  }

  /** Every field of `fs` is `Encodable`. */
  predicate AllEncodable(fs: seq<HeaderField>)
    decreases |fs|
  {
    |fs| == 0 || (Encodable(fs[0]) && AllEncodable(fs[1..]))
  }

  lemma {:induction false} AllEncodableOf(fs: seq<HeaderField>)
    requires forall k | 0 <= k < |fs| :: Encodable(fs[k])
    ensures AllEncodable(fs)
    decreases |fs|
  {
    if |fs| > 0 {
      AllEncodableOf(fs[1..]);
    }
  }

  /** The encoding of `g` sits in `buf` at `i`. */
  predicate FieldAt(buf: seq<byte>, i: nat, g: HeaderField) {
    i + |EncodeField(g)| <= |buf| && buf[i..i + |EncodeField(g)|] == EncodeField(g)
  }

  /** The encodings of `pre` and then of `f` sit in `buf` one after another from `i`. */
  predicate EncodedAt(buf: seq<byte>, i: nat, pre: seq<HeaderField>, f: HeaderField)
    decreases |pre|
  {
    if |pre| == 0 then FieldAt(buf, i, f)
    else FieldAt(buf, i, pre[0]) && EncodedAt(buf, i + |EncodeField(pre[0])|, pre[1..], f)
  }

  /** A window holding the encoded fields holds each of them in turn. */
  lemma {:induction false} WindowEncodedAt(buf: seq<byte>, i: nat, pre: seq<HeaderField>, f: HeaderField)
    requires var x := EncodeFields(pre) + EncodeField(f);
             i + |x| <= |buf| && buf[i..i + |x|] == x
    ensures EncodedAt(buf, i, pre, f)
    decreases |pre|
  {
    if |pre| == 0 {
      assert EncodeFields(pre) + EncodeField(f) == EncodeField(f);
    } else {
      var head := EncodeField(pre[0]);
      var y := EncodeFields(pre[1..]) + EncodeField(f);
      assert EncodeFields(pre) + EncodeField(f) == head + y;
      SplitWindow(buf, i, head, y);
      WindowEncodedAt(buf, i + |head|, pre[1..], f);
    }
  }

  /** The encoded fields parse back one after another. */
  lemma {:induction false} EncodedFieldsThen(buf: seq<byte>, i: nat, pre: seq<HeaderField>, f: HeaderField)
    requires AllEncodable(pre)
    requires Encodable(f)
    requires EncodedAt(buf, i, pre, f)
    ensures FieldsThen(buf, i, pre, f)
    decreases |pre|
  {
    if |pre| == 0 {
      ParseFieldAt(buf, i, f);
    } else {
      var j := i + |EncodeField(pre[0])|;
      FieldAtParses(buf, i, j, pre[0]);
      EncodedFieldsThen(buf, j, pre[1..], f);
      FieldsThenStep(buf, i, j, pre, f);
    }
  }

  lemma FieldAtParses(buf: seq<byte>, i: nat, j: nat, g: HeaderField)
    requires Encodable(g) && FieldAt(buf, i, g) && j == i + |EncodeField(g)|
    ensures ParseField(buf, i) == Ok(Parsed(j, g))
  {
    ParseFieldAt(buf, i, g);
  }

  /** One step of `FieldsThen`: the first field of `pre`, then the rest. */
  lemma FieldsThenStep(buf: seq<byte>, i: nat, j: nat, pre: seq<HeaderField>, f: HeaderField)
    requires |pre| > 0 && ParseField(buf, i) == Ok(Parsed(j, pre[0]))
    requires FieldsThen(buf, j, pre[1..], f)
    ensures FieldsThen(buf, i, pre, f)
  {
    assert ParseField(buf, j).Ok?;
  }

  /** Past fields that are not `op`, the read stops at the `op` field `f`. */
  lemma {:induction false} ReadHeaderOpAfter(buf: seq<byte>, i: nat, pre: seq<HeaderField>, f: HeaderField)
    requires forall k | 0 <= k < |pre| :: pre[k].name != OpName
    requires f.name == OpName
    requires FieldsThen(buf, i, pre, f)
    ensures ReadHeaderOpFrom(buf, i) == (if |f.value| == 0 then Err(BufferTooSmall) else OpCodeFrom(f.value[0]))
    decreases |pre|
  {
    var p := ParseField(buf, i).value;
    if |pre| == 0 {
      ReadHeaderOpHere(buf, i, p.next, f);
    } else {
      ReadHeaderOpPast(buf, i, p.next, pre[0]);
      ReadHeaderOpAfter(buf, p.next, pre[1..], f);
    }
  }

  /** A parsed `op` field ends the read with the opcode of its first byte. */
  lemma ReadHeaderOpHere(buf: seq<byte>, i: nat, j: nat, f: HeaderField)
    requires ParseField(buf, i) == Ok(Parsed(j, f)) && f.name == OpName
    ensures ReadHeaderOpFrom(buf, i) == (if |f.value| == 0 then Err(BufferTooSmall) else OpCodeFrom(f.value[0]))
  {
  }

  /** A parsed field that is not `op` sends the read on to the next field. */
  lemma ReadHeaderOpPast(buf: seq<byte>, i: nat, j: nat, g: HeaderField)
    requires ParseField(buf, i) == Ok(Parsed(j, g)) && g.name != OpName && j < |buf|
    ensures ReadHeaderOpFrom(buf, i) == ReadHeaderOpFrom(buf, j)
  {
  }

  /** The thirteen bytes `#ROSBAG V2.0\n` that open every version 2.0 bag. */
  const Magic: seq<byte> := [0x23, 0x52, 0x4F, 0x53, 0x42, 0x41, 0x47, 0x20, 0x56, 0x32, 0x2E, 0x30, 0x0A]

  /**
   * `version_check`: the file must open with the version line; a file shorter
   * than it fails the read itself.
   */
  function VersionCheck(file: seq<byte>): (r: Result<string, BagError>)
    ensures r.Ok? <==> |file| >= |Magic| && file[..|Magic|] == Magic
    ensures r.Ok? ==> r.value == "2.0"
    ensures r == Err(Io) <==> |file| < |Magic|
    ensures r.Err? ==> r.error in {Io, NotARosbag}
  {
    if |file| < |Magic| then Err(Io)
    else if file[..|Magic|] == Magic then Ok("2.0")
    else Err(NotARosbag)
  }

  /** A file that starts with the version line passes the check whatever follows. */
  lemma VersionCheckAccepts(rest: seq<byte>)
    ensures VersionCheck(Magic + rest) == Ok("2.0")
  {
    assert (Magic + rest)[..|Magic|] == Magic;
  }
}
