/**
 * Bounds-checked little-endian reads over a byte buffer, and the
 * length-prefixed read over a byte cursor (frost/src/util/parsing.rs).
 */
module Parsing {
  import opened Wrappers
  import opened Errors
  import opened Bytes

  /** `buf.get(start..end)`: the slice, when it lies inside the buffer. */
  function SliceGet(buf: seq<byte>, start: nat, end: nat): Option<seq<byte>> {
    if start <= end <= |buf| then Some(buf[start..end]) else None
  }

  /** `reader.read_exact` of `n` bytes from a cursor at `pos` over `buf`. */
  function ReadExact(buf: seq<byte>, pos: nat, n: nat): Result<seq<byte>, ParseError> {
    match SliceGet(buf, pos, pos + n)
    case None => Err(BufferTooSmall)
    case Some(bytes) => Ok(bytes)
  }

  function ParseU8At(buf: seq<byte>, i: nat): (r: Result<byte, ParseError>)
    ensures r.Ok? <==> i < |buf|
    ensures r.Ok? ==> r.value == buf[i]
    ensures r.Err? ==> r.error == BufferTooSmall
  {
    match SliceGet(buf, i, i + 1)
    case None => Err(BufferTooSmall)
    case Some(bytes) => Ok(bytes[0])
  }

  function ParseLeU32At(buf: seq<byte>, i: nat): (r: Result<u32, ParseError>)
    ensures r.Ok? <==> i + 4 <= |buf|
    ensures r.Ok? ==> r.value == buf[i] as int + 0x100 * (buf[i + 1] as int)
                                 + 0x1_0000 * (buf[i + 2] as int) + 0x100_0000 * (buf[i + 3] as int)
    ensures r.Err? ==> r.error == BufferTooSmall
  {
    match SliceGet(buf, i, i + 4)
    case None => Err(BufferTooSmall)
    case Some(bytes) =>
      LeValue4(bytes);
      Ok(LeValue(bytes))
  }

  function ParseLeU64At(buf: seq<byte>, i: nat): (r: Result<u64, ParseError>)
    ensures r.Ok? <==> i + 8 <= |buf|
    ensures r.Ok? ==> r.value == buf[i] as int + 0x100 * (buf[i + 1] as int)
                                 + 0x1_0000 * (buf[i + 2] as int) + 0x100_0000 * (buf[i + 3] as int)
                                 + 0x1_0000_0000 * (buf[i + 4] as int + 0x100 * (buf[i + 5] as int)
                                 + 0x1_0000 * (buf[i + 6] as int) + 0x100_0000 * (buf[i + 7] as int))
    ensures r.Err? ==> r.error == BufferTooSmall
  {
    match SliceGet(buf, i, i + 8)
    case None => Err(BufferTooSmall)
    case Some(bytes) =>
      LeValue8(bytes);
      LeValue4(bytes[..4]);
      LeValue4(bytes[4..]);
      LeValueBound(bytes[..4]);
      LeValueBound(bytes[4..]);
      assert Pow256(4) == 0x1_0000_0000;
      Ok(LeValue(bytes))
  }

  function ParseU8(buf: seq<byte>): (r: Result<byte, ParseError>)
    ensures r.Ok? <==> |buf| >= 1
    ensures r.Ok? ==> r.value == buf[0]
  {
    ParseU8At(buf, 0)
  }

  function ParseLeU32(buf: seq<byte>): (r: Result<u32, ParseError>)
    ensures r.Ok? <==> |buf| >= 4
    ensures r.Ok? ==> r.value == LeValue(buf[..4])
  {
    var r := ParseLeU32At(buf, 0);
    if r.Ok? then LeValue4(buf[..4]); r else r
  }

  function ParseLeU64(buf: seq<byte>): (r: Result<u64, ParseError>)
    ensures r.Ok? <==> |buf| >= 8
    ensures r.Ok? ==> r.value == LeValue(buf[..8])
  {
    var r := ParseLeU64At(buf, 0);
    if r.Ok? then
      LeValue8(buf[..8]);
      assert buf[..8][..4] == buf[..4] && buf[..8][4..] == buf[4..8];
      LeValue4(buf[..4]);
      LeValue4(buf[4..8]);
      r
    else r
  }

  /** At `pos` there is room for a little-endian u32 length prefix. */
  predicate PrefixFits(buf: seq<byte>, pos: nat) {
    pos + 4 <= |buf|
  }

  /** At `pos` there is a length prefix and the whole block it announces. */
  predicate BlockFits(buf: seq<byte>, pos: nat) {
    PrefixFits(buf, pos) && pos + 4 + LeValue(buf[pos..pos + 4]) <= |buf|
  }

  /** A length-prefixed block read from a cursor, and the cursor position after it. */
  datatype Lengthed = Lengthed(bytes: seq<byte>, next: nat)

  /**
   * `get_lengthed_bytes`: a little-endian u32 length `n`, then exactly `n` bytes;
   * the cursor starts at `pos`.
   */
  function GetLengthedBytes(buf: seq<byte>, pos: nat): (r: Result<Lengthed, ParseError>)
    ensures r.Ok? <==> BlockFits(buf, pos)
    ensures r.Ok? ==> && |r.value.bytes| == LeValue(buf[pos..pos + 4])
                      && r.value.next == pos + 4 + |r.value.bytes|
                      && r.value.bytes == buf[pos + 4..(r.value.next)]
    ensures r.Err? ==> r.error == BufferTooSmall
  {
    var lenBuf :- ReadExact(buf, pos, 4);
    var len := LeValue(lenBuf);
    var bytes :- ReadExact(buf, pos + 4, len);
    Ok(Lengthed(bytes, pos + 4 + len))
  }

  /** Reading a little-endian u32 back from its encoding returns the encoded value. */
  lemma ParseLeU32AtRoundTrip(pre: seq<byte>, v: u32, post: seq<byte>)
    ensures ParseLeU32At(pre + LeBytes(v, 4) + post, |pre|) == Ok(v)
  {
    var buf := pre + LeBytes(v, 4) + post;
    assert buf[|pre|..|pre| + 4] == LeBytes(v, 4);
    assert Pow256(4) == 0x1_0000_0000;
    LeValueOfLeBytes(v, 4);
  }

  /** Reading a little-endian u64 back from its encoding returns the encoded value. */
  lemma ParseLeU64AtRoundTrip(pre: seq<byte>, v: u64, post: seq<byte>)
    ensures ParseLeU64At(pre + LeBytes(v, 8) + post, |pre|) == Ok(v)
  {
    var buf := pre + LeBytes(v, 8) + post;
    assert buf[|pre|..|pre| + 8] == LeBytes(v, 8);
    assert Pow256(8) == 0x1_0000_0000_0000_0000;
    LeValueOfLeBytes(v, 8);
  }

  /** A read depends only on the bytes of its own window `[i, i+k)`. */
  lemma ReadsAreLocal(buf: seq<byte>, other: seq<byte>, i: nat)
    requires |buf| == |other|
    requires forall j | i <= j < i + 8 && j < |buf| :: buf[j] == other[j]
    ensures ParseU8At(buf, i) == ParseU8At(other, i)
    ensures ParseLeU32At(buf, i) == ParseLeU32At(other, i)
    ensures ParseLeU64At(buf, i) == ParseLeU64At(other, i)
  {
  }

  /** `get_lengthed_bytes` at `p` reads the block whose length prefix sits at `p`. */
  lemma GetLengthedBytesAt(buf: seq<byte>, p: nat, data: seq<byte>)
    requires p + 4 + |data| <= |buf|
    requires LeValue(buf[p..p + 4]) == |data|
    requires buf[p + 4..p + 4 + |data|] == data
    ensures GetLengthedBytes(buf, p) == Ok(Lengthed(data, p + 4 + |data|))
  {
    var r := GetLengthedBytes(buf, p);
    assert r.Ok?;
    assert r.value.bytes == data;
  }

  /** Four bytes that encode a length read back as that length. */
  lemma LengthPrefix(n: nat, s: seq<byte>)
    requires n < 0x1_0000_0000 && s == LeBytes(n, 4)
    ensures LeValue(s) == n
  {
    assert Pow256(4) == 0x1_0000_0000;
    LeValueOfLeBytes(n, 4);
  }

  /** `get_lengthed_bytes` over an encoded block returns the block and skips past it. */
  lemma GetLengthedBytesRoundTrip(pre: seq<byte>, data: seq<byte>, post: seq<byte>)
    requires |data| < 0x1_0000_0000
    ensures GetLengthedBytes(pre + LeBytes(|data|, 4) + data + post, |pre|)
            == Ok(Lengthed(data, |pre| + 4 + |data|))
  {
    var enc := LeBytes(|data|, 4);
    LengthPrefix(|data|, enc);
    GetLengthedBytesOfPieces(pre, enc, data, post);
  }

  /** A 4-byte prefix holding the length of `data`, then `data`, read back from `|pre|`. */
  lemma GetLengthedBytesOfPieces(pre: seq<byte>, enc: seq<byte>, data: seq<byte>, post: seq<byte>)
    requires |enc| == 4 && LeValue(enc) == |data|
    ensures GetLengthedBytes(pre + enc + data + post, |pre|) == Ok(Lengthed(data, |pre| + 4 + |data|))
  {
    var buf := pre + enc + data + post;
    SliceOfConcat(pre, enc, data, post);
    GetLengthedBytesAt(buf, |pre|, data);
  }
}
