/**
 * The loop every record-header parser of frost/src/lib.rs repeats: parse one
 * field, dispatch on its name (store a decoded value, check the `op` byte, or
 * reject an unknown name), and stop once the index reaches the end of the
 * buffer. A `Layout` names what each parser accepts; the loop itself is
 * written once.
 */
module HeaderLoop {
  import opened Wrappers
  import opened Errors
  import opened Bytes
  import opened Parsing
  import opened RosTime
  import opened Fields

  /** How a parser reads the value of a field it knows. */
  datatype Decoder =
    | AsU32   // `parse_le_u32`
    | AsU64   // `parse_le_u64`
    | AsTime  // `Time::from`
    | AsText  // the value bytes themselves
    | AsFlag  // `value == b"1"`
    | Skip    // accepted and ignored

  /** A decoded field value. */
  datatype Value =
    | U32(u32: u32)
    | U64(u64: u64)
    | TimeValue(time: Time)
    | Text(text: seq<byte>)
    | Flag(flag: bool)

  /** The values a parser has stored so far, by field name. */
  type Values = map<seq<byte>, Value>

  /**
   * What a header parser accepts: the opcode its `op` case demands (`None` when
   * the parser has no `op` case), and a decoder for every other name it knows.
   */
  datatype Layout = Layout(op: Option<byte>, decoders: map<seq<byte>, Decoder>)

  /** The byte string `1`. */
  const One: seq<byte> := [0x31]

  /** Whether a stored value has the shape its decoder produces. */
  predicate Matches(d: Decoder, v: Value) {
    match d
    case AsU32 => v.U32?
    case AsU64 => v.U64?
    case AsTime => v.TimeValue?
    case AsText => v.Text?
    case AsFlag => v.Flag?
    case Skip => false
  }

  /** Decodes a field value; `None` for a field that is accepted but not stored. */
  function Decode(d: Decoder, value: seq<byte>): (r: Result<Option<Value>, ParseError>)
    ensures d == Skip <==> r == Ok(None)
    ensures r.Ok? && r.value.Some? ==> Matches(d, r.value.value)
    ensures d in {AsU32} ==> (r.Ok? <==> |value| >= 4)
    ensures d in {AsU64, AsTime} ==> (r.Ok? <==> |value| >= 8)
    ensures d in {AsText, AsFlag, Skip} ==> r.Ok?
    ensures r.Err? ==> r.error == BufferTooSmall
  {
    match d
    case AsU32 =>
      var v :- ParseLeU32(value);
      Ok(Some(U32(v)))
    case AsU64 =>
      var v :- ParseLeU64(value);
      Ok(Some(U64(v)))
    case AsTime =>
      var t :- RosTime.FromBytes(value);
      Ok(Some(TimeValue(t)))
    case AsText => Ok(Some(Text(value)))
    case AsFlag => Ok(Some(Flag(value == One)))
    case Skip => Ok(None)
  }

  /** Decoding the stored bytes of a value returns that value. */
  lemma DecodeRoundTrip(v: nat, t: Time, s: seq<byte>)
    ensures v < 0x1_0000_0000 ==> Decode(AsU32, LeBytes(v, 4)) == Ok(Some(U32(v)))
    ensures v < 0x1_0000_0000_0000_0000 ==> Decode(AsU64, LeBytes(v, 8)) == Ok(Some(U64(v)))
    ensures Decode(AsTime, Encode(t)) == Ok(Some(TimeValue(t)))
    ensures Decode(AsText, s) == Ok(Some(Text(s)))
    ensures Decode(AsFlag, s) == Ok(Some(Flag(s == One)))
  {
    assert Pow256(4) == 0x1_0000_0000;
    assert Pow256(8) == 0x1_0000_0000_0000_0000;
    if v < 0x1_0000_0000 {
      LeValueOfLeBytes(v, 4);
      assert LeBytes(v, 4)[..4] == LeBytes(v, 4);
    }
    if v < 0x1_0000_0000_0000_0000 {
      LeValueOfLeBytes(v, 8);
      assert LeBytes(v, 8)[..8] == LeBytes(v, 8);
    }
    FromBytesRoundTrip(t, []);
    assert Encode(t) + [] == Encode(t);
  }

  /** The verdict of one arm of the `match name` on one field. */
  function Check(layout: Layout, f: HeaderField): (r: Result<Option<Value>, ParseError>)
    ensures r == Err(UnexpectedField) <==>
              f.name !in layout.decoders && !(layout.op.Some? && f.name == OpName)
    ensures layout.op.Some? && f.name == OpName ==>
              && (r.Ok? <==> |f.value| >= 1 && f.value[0] == layout.op.value)
              && (r.Ok? ==> r.value.None?)
              && (r == Err(UnexpectedOpCode) <==> |f.value| >= 1 && f.value[0] != layout.op.value)
    ensures r.Ok? && r.value.Some? ==>
              f.name in layout.decoders && Matches(layout.decoders[f.name], r.value.value)
  {
    if layout.op.Some? && f.name == OpName then
      var op :- ParseU8(f.value);
      if op == layout.op.value then Ok(None) else Err(UnexpectedOpCode)
    else if f.name in layout.decoders then
      Decode(layout.decoders[f.name], f.value)
    else
      Err(UnexpectedField)
  }

  /** The values after one accepted field. */
  function Store(acc: Values, f: HeaderField, c: Option<Value>): Values {
    match c
    case None => acc
    case Some(v) => acc[f.name := v]
  }

  function Step(layout: Layout, acc: Values, f: HeaderField): Result<Values, ParseError> {
    var c :- Check(layout, f);
    Ok(Store(acc, f, c))
  }

  /** The header loop from index `i` on, with the values stored so far. */
  function FoldFrom(layout: Layout, buf: seq<byte>, i: nat, acc: Values): Result<Values, ParseError>
    decreases |buf| - i
  {
    var p :- ParseField(buf, i);
    var acc' :- Step(layout, acc, p.field);
    if p.next >= |buf| then Ok(acc') else FoldFrom(layout, buf, p.next, acc')
  }

  /** The values a header parser stores before it checks for missing fields. */
  function ParseHeader(layout: Layout, buf: seq<byte>): Result<Values, ParseError> {
    FoldFrom(layout, buf, 0, map[])
  }

  /** The same loop over a list of already split fields. */
  function FoldSeq(layout: Layout, fs: seq<HeaderField>, acc: Values): Result<Values, ParseError> {
    if |fs| == 0 then Ok(acc)
    else
      var acc' :- Step(layout, acc, fs[0]);
      FoldSeq(layout, fs[1..], acc')
  }

  /** When every field of the buffer splits, the loop is the fold over the split fields. */
  lemma {:induction false} FoldFromIsFoldSeq(layout: Layout, buf: seq<byte>, i: nat, acc: Values)
    requires SplitFields(buf, i).Ok?
    ensures FoldFrom(layout, buf, i, acc) == FoldSeq(layout, SplitFields(buf, i).value, acc)
    decreases |buf| - i
  {
    var p := ParseField(buf, i).value;
    var fs := SplitFields(buf, i).value;
    assert fs[0] == p.field;
    var s := Step(layout, acc, p.field);
    if s.Ok? && p.next < |buf| {
      FoldFromIsFoldSeq(layout, buf, p.next, s.value);
      assert fs[1..] == SplitFields(buf, p.next).value;
    }
  }

  /** The loop over the bytes of a field list is the fold over that list. */
  lemma ParseHeaderOfEncoded(layout: Layout, fs: seq<HeaderField>)
    requires |fs| > 0
    requires forall k | 0 <= k < |fs| :: Encodable(fs[k])
    ensures ParseHeader(layout, EncodeFields(fs)) == FoldSeq(layout, fs, map[])
  {
    SplitFieldsRoundTrip([], fs);
    assert [] + EncodeFields(fs) == EncodeFields(fs);
    FoldFromIsFoldSeq(layout, EncodeFields(fs), 0, map[]);
  }

  /** The value the last stored field named `n` leaves behind, if any. */
  function LastValue(layout: Layout, fs: seq<HeaderField>, n: seq<byte>): (r: Option<Value>)
    ensures r.Some? ==> exists k :: 0 <= k < |fs| && fs[k].name == n && Check(layout, fs[k]) == Ok(r)
    ensures r.None? ==> forall k :: 0 <= k < |fs| && fs[k].name == n ==> !(Check(layout, fs[k]).Ok? && Check(layout, fs[k]).value.Some?)
  {
    if |fs| == 0 then None
    else
      var later := LastValue(layout, fs[1..], n);
      if later.Some? then
        var k :| 0 <= k < |fs[1..]| && fs[1..][k].name == n && Check(layout, fs[1..][k]) == Ok(later);
        assert fs[k + 1] == fs[1..][k];
        later
      else
        var c := Check(layout, fs[0]);
        if fs[0].name == n && c.Ok? && c.value.Some? then c.value
        else
          assert forall k | 1 <= k < |fs| :: fs[k] == fs[1..][k - 1];
          None
  }

  /** A fold succeeds exactly when every field passes its check. */
  lemma {:induction false} FoldSeqOk(layout: Layout, fs: seq<HeaderField>, acc: Values)
    ensures FoldSeq(layout, fs, acc).Ok? <==> forall k | 0 <= k < |fs| :: Check(layout, fs[k]).Ok?
  {
    if |fs| > 0 {
      var s := Step(layout, acc, fs[0]);
      if s.Ok? {
        FoldSeqOk(layout, fs[1..], s.value);
        assert forall k | 1 <= k < |fs| :: fs[k] == fs[1..][k - 1];
      }
    }
  }

  /** A failing fold reports the error of the first field that fails its check. */
  lemma {:induction false} FoldSeqFirstError(layout: Layout, fs: seq<HeaderField>, acc: Values)
    requires FoldSeq(layout, fs, acc).Err?
    ensures exists k :: && 0 <= k < |fs|
                        && Check(layout, fs[k]) == Err(FoldSeq(layout, fs, acc).error)
                        && forall j | 0 <= j < k :: Check(layout, fs[j]).Ok?
  {
    var s := Step(layout, acc, fs[0]);
    if s.Err? {
      assert Check(layout, fs[0]) == Err(FoldSeq(layout, fs, acc).error);
    } else {
      FoldSeqFirstError(layout, fs[1..], s.value);
      var k :| && 0 <= k < |fs[1..]|
               && Check(layout, fs[1..][k]) == Err(FoldSeq(layout, fs[1..], s.value).error)
               && forall j | 0 <= j < k :: Check(layout, fs[1..][j]).Ok?;
      assert forall j | 1 <= j < k + 1 :: fs[j] == fs[1..][j - 1];
      assert fs[k + 1] == fs[1..][k];
    }
  }

  /**
   * A successful fold stores, for each name, the value of the last field with
   * that name that stores one (a repeated field keeps its last value), and
   * keeps the earlier values of every other name.
   */
  lemma {:induction false} FoldSeqStoresLast(layout: Layout, fs: seq<HeaderField>, acc: Values, n: seq<byte>)
    requires FoldSeq(layout, fs, acc).Ok?
    ensures var m := FoldSeq(layout, fs, acc).value;
            && (n in m <==> n in acc || LastValue(layout, fs, n).Some?)
            && (LastValue(layout, fs, n).Some? ==> m[n] == LastValue(layout, fs, n).value)
            && (LastValue(layout, fs, n).None? && n in acc ==> m[n] == acc[n])
  {
    if |fs| > 0 {
      var c := Check(layout, fs[0]).value;
      var acc' := Store(acc, fs[0], c);
      FoldSeqStoresLast(layout, fs[1..], acc', n);
    }
  }

  /** Every stored value has the shape of its name's decoder. */
  predicate Typed(layout: Layout, m: Values) {
    forall n | n in m :: n in layout.decoders && Matches(layout.decoders[n], m[n])
  }

  lemma {:induction false} FoldSeqTyped(layout: Layout, fs: seq<HeaderField>, acc: Values)
    requires Typed(layout, acc)
    requires FoldSeq(layout, fs, acc).Ok?
    ensures Typed(layout, FoldSeq(layout, fs, acc).value)
  {
    if |fs| > 0 {
      var c := Check(layout, fs[0]).value;
      FoldSeqTyped(layout, fs[1..], Store(acc, fs[0], c));
    }
  }

  lemma {:induction false} FoldFromTyped(layout: Layout, buf: seq<byte>, i: nat, acc: Values)
    requires Typed(layout, acc)
    requires FoldFrom(layout, buf, i, acc).Ok?
    ensures Typed(layout, FoldFrom(layout, buf, i, acc).value)
    decreases |buf| - i
  {
    var p := ParseField(buf, i).value;
    var c := Check(layout, p.field).value;
    var acc' := Store(acc, p.field, c);
    if p.next < |buf| {
      FoldFromTyped(layout, buf, p.next, acc');
    }
  }

  /** The values a header parser stores have the shapes their decoders produce. */
  lemma ParseHeaderTyped(layout: Layout, buf: seq<byte>)
    requires ParseHeader(layout, buf).Ok?
    ensures Typed(layout, ParseHeader(layout, buf).value)
  {
    FoldFromTyped(layout, buf, 0, map[]);
  }

  /** An empty header fails: the loop always parses one field first. */
  lemma EmptyHeaderFails(layout: Layout)
    ensures ParseHeader(layout, []) == Err(BufferTooSmall)
  {
  }

  /** A required `u32` field. */
  function NeedU32(m: Values, n: seq<byte>): Result<u32, ParseError>
  {
    if n in m && m[n].U32? then Ok(m[n].u32) else Err(MissingField)
  }

  /** A required `u64` field. */
  function NeedU64(m: Values, n: seq<byte>): Result<u64, ParseError>
  {
    if n in m && m[n].U64? then Ok(m[n].u64) else Err(MissingField)
  }

  /** A required time field. */
  function NeedTime(m: Values, n: seq<byte>): Result<Time, ParseError>
  {
    if n in m && m[n].TimeValue? then Ok(m[n].time) else Err(MissingField)
  }

  /** A required text field. */
  function NeedText(m: Values, n: seq<byte>): Result<seq<byte>, ParseError>
  {
    if n in m && m[n].Text? then Ok(m[n].text) else Err(MissingField)
  }

  /** An optional text field. */
  function OptText(m: Values, n: seq<byte>): Option<seq<byte>> {
    if n in m && m[n].Text? then Some(m[n].text) else None
  }

  /** A flag field that defaults to false. */
  function FlagOrFalse(m: Values, n: seq<byte>): bool {
    n in m && m[n].Flag? && m[n].flag
  }

  /** Whether the names of a field list are pairwise different. */
  predicate DistinctNames(fs: seq<HeaderField>) {
    forall j, k | 0 <= j < k < |fs| :: fs[j].name != fs[k].name
  }

  /**
   * Folding fields with different names that all pass their checks stores
   * each field's decoded value under its name, and nothing else.
   */
  lemma {:induction false} FoldSeqDistinct(layout: Layout, fs: seq<HeaderField>, acc: Values)
    requires DistinctNames(fs)
    requires forall k | 0 <= k < |fs| :: Check(layout, fs[k]).Ok?
    ensures FoldSeq(layout, fs, acc).Ok?
    ensures forall k | 0 <= k < |fs| && Check(layout, fs[k]).value.Some? ::
              fs[k].name in FoldSeq(layout, fs, acc).value
              && FoldSeq(layout, fs, acc).value[fs[k].name] == Check(layout, fs[k]).value.value
    ensures forall n | n in FoldSeq(layout, fs, acc).value ::
              n in acc || exists k | 0 <= k < |fs| :: fs[k].name == n
  {
    if |fs| > 0 {
      var c := Check(layout, fs[0]).value;
      var acc' := Store(acc, fs[0], c);
      assert DistinctNames(fs[1..]) by {
        forall j, k | 0 <= j < k < |fs[1..]| ensures fs[1..][j].name != fs[1..][k].name {
          assert fs[1..][j] == fs[j + 1] && fs[1..][k] == fs[k + 1];
        }
      }
      assert forall k | 0 <= k < |fs[1..]| :: fs[1..][k] == fs[k + 1];
      FoldSeqDistinct(layout, fs[1..], acc');
      var m := FoldSeq(layout, fs, acc).value;
      assert m == FoldSeq(layout, fs[1..], acc').value;
      if c.Some? {
        assert fs[0].name in acc';
        assert fs[0].name in m && m[fs[0].name] == c.value by {
          FoldSeqStoresLast(layout, fs[1..], acc', fs[0].name);
        }
      }
    }
  }

  /**
   * A header written as a list of distinctly named fields that each pass
   * their check parses back to exactly those fields' values.
   */
  lemma ParseEncodedHeader(layout: Layout, fs: seq<HeaderField>)
    requires |fs| > 0
    requires forall k | 0 <= k < |fs| :: Encodable(fs[k])
    requires DistinctNames(fs)
    requires forall k | 0 <= k < |fs| :: Check(layout, fs[k]).Ok?
    ensures ParseHeader(layout, EncodeFields(fs)).Ok?
    ensures forall k | 0 <= k < |fs| && Check(layout, fs[k]).value.Some? ::
              fs[k].name in ParseHeader(layout, EncodeFields(fs)).value
              && ParseHeader(layout, EncodeFields(fs)).value[fs[k].name] == Check(layout, fs[k]).value.value
  {
    ParseHeaderOfEncoded(layout, fs);
    FoldSeqDistinct(layout, fs, map[]);
  }

  /**
   * The typed headers read their fields back from the map an encoded header
   * parses to: a field that stores a value is found with that value.
   */
  lemma NeedOfEncoded(layout: Layout, fs: seq<HeaderField>, k: nat)
    requires |fs| > 0
    requires forall j | 0 <= j < |fs| :: Encodable(fs[j])
    requires DistinctNames(fs)
    requires forall j | 0 <= j < |fs| :: Check(layout, fs[j]).Ok?
    requires k < |fs|
    ensures ParseHeader(layout, EncodeFields(fs)).Ok?
    ensures var c := Check(layout, fs[k]).value;
            c.Some? && c.value.U32? ==> NeedU32(ParseHeader(layout, EncodeFields(fs)).value, fs[k].name) == Ok(c.value.u32)
    ensures var c := Check(layout, fs[k]).value;
            c.Some? && c.value.U64? ==> NeedU64(ParseHeader(layout, EncodeFields(fs)).value, fs[k].name) == Ok(c.value.u64)
    ensures var c := Check(layout, fs[k]).value;
            c.Some? && c.value.TimeValue? ==> NeedTime(ParseHeader(layout, EncodeFields(fs)).value, fs[k].name) == Ok(c.value.time)
    ensures var c := Check(layout, fs[k]).value;
            c.Some? && c.value.Text? ==> && NeedText(ParseHeader(layout, EncodeFields(fs)).value, fs[k].name) == Ok(c.value.text)
                                         && OptText(ParseHeader(layout, EncodeFields(fs)).value, fs[k].name) == Some(c.value.text)
    ensures var c := Check(layout, fs[k]).value;
            c.Some? && c.value.Flag? ==> FlagOrFalse(ParseHeader(layout, EncodeFields(fs)).value, fs[k].name) == c.value.flag
  {
    ParseHeaderOfEncoded(layout, fs);
    FoldSeqDistinct(layout, fs, map[]);
    if Check(layout, fs[k]).value.Some? {
      Stored(layout, fs, k);
    }
  }

  lemma Stored(layout: Layout, fs: seq<HeaderField>, k: nat)
    requires DistinctNames(fs)
    requires forall j | 0 <= j < |fs| :: Check(layout, fs[j]).Ok?
    requires k < |fs| && Check(layout, fs[k]).value.Some?
    ensures FoldSeq(layout, fs, map[]).Ok?
    ensures fs[k].name in FoldSeq(layout, fs, map[]).value
    ensures FoldSeq(layout, fs, map[]).value[fs[k].name] == Check(layout, fs[k]).value.value
  {
    FoldSeqDistinct(layout, fs, map[]);
  }

  /** A name that no field of an encoded header carries is missing from the map it parses to. */
  lemma MissingOfEncoded(layout: Layout, fs: seq<HeaderField>, n: seq<byte>)
    requires |fs| > 0
    requires forall j | 0 <= j < |fs| :: Encodable(fs[j])
    requires DistinctNames(fs)
    requires forall j | 0 <= j < |fs| :: Check(layout, fs[j]).Ok?
    requires forall j | 0 <= j < |fs| :: fs[j].name != n
    ensures ParseHeader(layout, EncodeFields(fs)).Ok?
    ensures var m := ParseHeader(layout, EncodeFields(fs)).value;
            && NeedU32(m, n) == Err(MissingField) && NeedU64(m, n) == Err(MissingField)
            && NeedTime(m, n) == Err(MissingField) && NeedText(m, n) == Err(MissingField)
            && OptText(m, n) == None && !FlagOrFalse(m, n)
  {
    ParseHeaderOfEncoded(layout, fs);
    NotStored(layout, fs, n);
  }

  lemma NotStored(layout: Layout, fs: seq<HeaderField>, n: seq<byte>)
    requires DistinctNames(fs)
    requires forall j | 0 <= j < |fs| :: Check(layout, fs[j]).Ok?
    requires forall j | 0 <= j < |fs| :: fs[j].name != n
    ensures FoldSeq(layout, fs, map[]).Ok? && n !in FoldSeq(layout, fs, map[]).value
  {
    FoldSeqDistinct(layout, fs, map[]);
  }
}
