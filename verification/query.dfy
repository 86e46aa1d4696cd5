/**
 * Message queries over a decompressed bag (frost/src/util/query.rs): the
 * `Query` builder, the selection of index entries `BagIter::new` makes, and
 * the byte ranges `BagIter::next` hands out, one message at a time.
 */
module Queries {
  import opened Wrappers
  import opened Errors
  import opened Bytes
  import opened RosTime
  import opened Headers
  import opened Records
  import opened Ordered
  import opened Summary
  import opened Chunks
  import opened Parsing
  import opened Fields
  import opened HeaderLoop

  // ---------------------------------------------------------------- builder

  /** A query: topic names, type names and a time window, each optional. */
  datatype Query = Query(
    topics: Option<seq<seq<byte>>>,
    types: Option<seq<seq<byte>>>,
    startTime: Option<Time>,
    endTime: Option<Time>)

  /** `Query::all`: no restriction at all. */
  function All(): Query {
    Query(None, None, None, None)
  }

  /** `Query::new` and `Query::default`. */
  function New(): Query {
    All()
  }

  function WithTopics(q: Query, topics: seq<seq<byte>>): (r: Query)
    ensures r.topics == Some(topics)
    ensures r.types == q.types && r.startTime == q.startTime && r.endTime == q.endTime
  {
    q.(topics := Some(topics))
  }

  function WithTypes(q: Query, types: seq<seq<byte>>): (r: Query)
    ensures r.types == Some(types)
    ensures r.topics == q.topics && r.startTime == q.startTime && r.endTime == q.endTime
  {
    q.(types := Some(types))
  }

  function WithStartTime(q: Query, t: Time): (r: Query)
    ensures r.startTime == Some(t)
    ensures r.topics == q.topics && r.types == q.types && r.endTime == q.endTime
  {
    q.(startTime := Some(t))
  }

  function WithEndTime(q: Query, t: Time): (r: Query)
    ensures r.endTime == Some(t)
    ensures r.topics == q.topics && r.types == q.types && r.startTime == q.startTime
  {
    q.(endTime := Some(t))
  }

  // -------------------------------------------------------------- selection

  /** A name filter lets `n` through: no filter, or `n` is one of the names. */
  predicate Admits(names: Option<seq<seq<byte>>>, n: seq<byte>) {
    names.None? || n in names.value
  }

  /**
   * The ids one name filter picks out of a grouping: every listed id when
   * there is no filter, else the ids of the named keys; a name that is not a
   * key adds nothing.
   */
  function IdsFor(groups: map<seq<byte>, seq<u32>>, names: Option<seq<seq<byte>>>): set<u32> {
    match names
    case None => set k, id | k in groups && id in groups[k] :: id
    case Some(ns) => set k, id | k in ns && k in groups && id in groups[k] :: id
  }

  /** `ids_from_topics.intersection(&ids_from_types)`. */
  function SelectedIds(meta: BagMetadata, q: Query): set<u32> {
    IdsFor(ConnectionIdsBy(ByTopic, meta.connections), q.topics)
      * IdsFor(ConnectionIdsBy(ByType, meta.connections), q.types)
  }

  lemma IdsForSpec(g: Grouping, conns: map<u32, ConnectionData>, names: Option<seq<seq<byte>>>, id: u32)
    requires WellKeyed(conns)
    ensures id in IdsFor(ConnectionIdsBy(g, conns), names) <==> id in conns && Admits(names, KeyOf(g, conns[id]))
  {
    var groups := ConnectionIdsBy(g, conns);
    if id in conns && Admits(names, KeyOf(g, conns[id])) {
      var k := KeyOf(g, conns[id]);
      ConnectionIdsByMember(g, conns, k, id);
    }
    if id in IdsFor(groups, names) {
      match names
      case None =>
        var k :| k in groups && id in groups[k];
        ConnectionIdsByMember(g, conns, k, id);
      case Some(ns) =>
        var k :| k in ns && k in groups && id in groups[k];
        ConnectionIdsByMember(g, conns, k, id);
    }
  }

  /**
   * A connection is selected exactly when it exists and both its topic and
   * its type pass their filters.
   */
  lemma SelectedIdsSpec(meta: BagMetadata, q: Query, id: u32)
    requires WellKeyed(meta.connections)
    ensures id in SelectedIds(meta, q) <==>
              && id in meta.connections
              && Admits(q.topics, meta.connections[id].topic)
              && Admits(q.types, meta.connections[id].dataType)
  {
    IdsForSpec(ByTopic, meta.connections, q.topics, id);
    IdsForSpec(ByType, meta.connections, q.types, id);
  }

  /** With no name filter, every connection is selected. */
  lemma AllSelectsEveryConnection(meta: BagMetadata)
    requires WellKeyed(meta.connections)
    ensures SelectedIds(meta, All()) == meta.connections.Keys
  {
    forall id ensures id in SelectedIds(meta, All()) <==> id in meta.connections {
      SelectedIdsSpec(meta, All(), id);
    }
  }

  /** A topic and a type that no connection shares select nothing together. */
  lemma DisjointFiltersSelectNothing(meta: BagMetadata, topic: seq<byte>, ty: seq<byte>)
    requires WellKeyed(meta.connections)
    requires forall id | id in meta.connections :: meta.connections[id].topic != topic || meta.connections[id].dataType != ty
    ensures SelectedIds(meta, WithTypes(WithTopics(New(), [topic]), [ty])) == {}
  {
    var q := WithTypes(WithTopics(New(), [topic]), [ty]);
    forall id | id in SelectedIds(meta, q) ensures false {
      SelectedIdsSpec(meta, q, id);
    }
  }

  // ------------------------------------------------------------ the entries

  /** The index entries of a connection; a connection without an index has none. */
  function IndexOf(index: map<u32, seq<IndexEntry>>, id: u32): seq<IndexEntry> {
    if id in index then index[id] else []
  }

  /** The index entries of the listed connections, in list order. */
  function Gather(ids: seq<u32>, index: map<u32, seq<IndexEntry>>): (r: seq<IndexEntry>)
    ensures |r| == SumCounts(ids, index)
  {
    if |ids| == 0 then []
    else Gather(ids[..|ids| - 1], index) + IndexOf(index, ids[|ids| - 1])
  }

  /** The entries gathered are exactly the entries of the listed, indexed connections. */
  lemma {:induction false} GatherMembers(ids: seq<u32>, index: map<u32, seq<IndexEntry>>, e: IndexEntry)
    ensures e in Gather(ids, index) <==> exists i | 0 <= i < |ids| :: ids[i] in index && e in index[ids[i]]
  {
    if |ids| > 0 {
      var n := |ids| - 1;
      var init := ids[..n];
      GatherMembers(init, index, e);
      if exists i | 0 <= i < |ids| :: ids[i] in index && e in index[ids[i]] {
        var i :| 0 <= i < |ids| && ids[i] in index && e in index[ids[i]];
        if i < n {
          assert init[i] == ids[i];
        }
      }
      if e in Gather(init, index) {
        var i :| 0 <= i < |init| && init[i] in index && e in index[init[i]];
        assert ids[i] == init[i];
      }
    }
  }

  /** `time` lies in the query's window; both ends are inclusive. */
  predicate InWindow(q: Query, time: Time) {
    && (q.startTime.None? || !(Cmp(time, q.startTime.value) == Less))
    && (q.endTime.None? || !(Cmp(time, q.endTime.value) == Greater))
  }

  /** The entries inside the window, in their order. */
  function Window(es: seq<IndexEntry>, q: Query): (r: seq<IndexEntry>)
    ensures |r| <= |es|
  {
    if es == [] then []
    else (if InWindow(q, es[0].time) then [es[0]] else []) + Window(es[1..], q)
  }

  lemma {:induction false} WindowMembers(es: seq<IndexEntry>, q: Query)
    ensures forall e | e in Window(es, q) :: e in es && InWindow(q, e.time)
    ensures forall e | e in es && InWindow(q, e.time) :: e in Window(es, q)
  {
    if es != [] {
      WindowMembers(es[1..], q);
      assert forall e | e in es :: e == es[0] || e in es[1..];
    }
  }

  lemma {:induction false} WindowOfAll(es: seq<IndexEntry>)
    ensures Window(es, All()) == es
  {
    if es != [] {
      WindowOfAll(es[1..]);
      assert es == [es[0]] + es[1..];
    }
  }

  /** The sort key of `a.time.cmp(&b.time)`. */
  function TimeKey(e: IndexEntry): int {
    Nanos(e.time)
  }

  /**
   * `BagIter::new`'s entry list: the entries of the selected connections (the
   * connections taken in ascending id order), inside the window, sorted by
   * time.
   */
  function Entries(meta: BagMetadata, q: Query): seq<IndexEntry> {
    SortBy(Window(Gather(IdsInOrder(SelectedIds(meta, q)), meta.index), q), TimeKey)
  }

  /** `BagIter::new` as corrected: a connection without an index contributes no entries. */
  function BagIterNew(meta: BagMetadata, q: Query): (it: BagIter)
    ensures it.current == 0
    ensures multiset(it.entries) == multiset(Window(Gather(IdsInOrder(SelectedIds(meta, q)), meta.index), q))
    ensures WellKeyed(meta.connections) ==>
              forall i, j | 0 <= i < j < |it.entries| :: Le(it.entries[i].time, it.entries[j].time)
    ensures WellKeyed(meta.connections) ==>
              forall e ::
                e in it.entries <==>
                && InWindow(q, e.time)
                && exists id | id in meta.index && e in meta.index[id] ::
                     && id in meta.connections
                     && Admits(q.topics, meta.connections[id].topic)
                     && Admits(q.types, meta.connections[id].dataType)
  {
    if WellKeyed(meta.connections) then
      EntriesSpec(meta, q);
      BagIter(Entries(meta, q), 0)
    else
      BagIter(Entries(meta, q), 0)
  }

  /**
   * The entries handed to the iterator are in non-decreasing time order, and
   * an index entry is among them exactly when its connection is selected and
   * its time lies in the window.
   */
  lemma EntriesSpec(meta: BagMetadata, q: Query)
    requires WellKeyed(meta.connections)
    ensures forall i, j | 0 <= i < j < |Entries(meta, q)| :: Le(Entries(meta, q)[i].time, Entries(meta, q)[j].time)
    ensures multiset(Entries(meta, q)) == multiset(Window(Gather(IdsInOrder(SelectedIds(meta, q)), meta.index), q))
    ensures forall e ::
              e in Entries(meta, q) <==>
              && InWindow(q, e.time)
              && exists id | id in meta.index && e in meta.index[id] ::
                   && id in meta.connections
                   && Admits(q.topics, meta.connections[id].topic)
                   && Admits(q.types, meta.connections[id].dataType)
  {
    var sel := SelectedIds(meta, q);
    var ids := IdsInOrder(sel);
    var gathered := Gather(ids, meta.index);
    var w := Window(gathered, q);
    SortBySorted(w, TimeKey);
    WindowMembers(gathered, q);
    IdsInOrderSpec(sel);
    forall e ensures e in Entries(meta, q) <==>
                     && InWindow(q, e.time)
                     && exists id | id in meta.index && e in meta.index[id] ::
                          && id in meta.connections
                          && Admits(q.topics, meta.connections[id].topic)
                          && Admits(q.types, meta.connections[id].dataType) {
      GatherMembers(ids, meta.index, e);
      if e in Entries(meta, q) {
        var i :| 0 <= i < |ids| && ids[i] in meta.index && e in meta.index[ids[i]];
        SelectedIdsSpec(meta, q, ids[i]);
      }
      if InWindow(q, e.time) && exists id | id in meta.index && e in meta.index[id] ::
                                  && id in meta.connections
                                  && Admits(q.topics, meta.connections[id].topic)
                                  && Admits(q.types, meta.connections[id].dataType) {
        var id :| id in meta.index && e in meta.index[id]
                  && id in meta.connections
                  && Admits(q.topics, meta.connections[id].topic)
                  && Admits(q.types, meta.connections[id].dataType);
        SelectedIdsSpec(meta, q, id);
        assert id in ids;
        var i :| 0 <= i < |ids| && ids[i] == id;
        assert e in gathered;
      }
    }
    var r := Entries(meta, q);
    forall i, j | 0 <= i < j < |r| ensures Le(r[i].time, r[j].time) {
      assert TimeKey(r[i]) <= TimeKey(r[j]);
    }
  }

  /**
   * `Query::all` hands out every message of the bag: as many entries as
   * `message_count` counts, when every index list belongs to a connection.
   */
  lemma AllCountsEveryMessage(meta: BagMetadata)
    requires WellKeyed(meta.connections)
    requires meta.index.Keys <= meta.connections.Keys
    ensures |Entries(meta, All())| == MessageCount(meta)
  {
    var ids := IdsInOrder(meta.connections.Keys);
    AllSelectsEveryConnection(meta);
    WindowOfAll(Gather(ids, meta.index));
    IdsInOrderSpec(meta.connections.Keys);
    SumCountsIsCountOver(ids, meta.index);
    ListedIds(meta.connections.Keys);
    CountOverIndexed(meta.connections.Keys, meta.index);
    assert meta.connections.Keys * meta.index.Keys == meta.index.Keys;
    MessageCountSpec(meta);
  }

  /** The ids listed in order make up the set again. */
  lemma ListedIds(s: set<u32>)
    ensures (set i | 0 <= i < |IdsInOrder(s)| :: IdsInOrder(s)[i]) == s
  {
    var ids := IdsInOrder(s);
    IdsInOrderSpec(s);
    forall x | x in s ensures x in set i | 0 <= i < |ids| :: ids[i] {
      var i :| 0 <= i < |ids| && ids[i] == x;
    }
  }

  // --------------------------------------------------- as written: a panic

  /** The entries as the source gathers them: `index_data.get(id).unwrap()` panics on a connection without an index. */
  function GatherAsWritten(ids: seq<u32>, index: map<u32, seq<IndexEntry>>): Result<seq<IndexEntry>, BagError> {
    if |ids| == 0 then Ok([])
    else
      var init :- GatherAsWritten(ids[..|ids| - 1], index);
      if ids[|ids| - 1] !in index then Err(Panicked)
      else Ok(init + index[ids[|ids| - 1]])
  }

  /** `BagIter::new` as written. */
  function BagIterNewAsWritten(meta: BagMetadata, q: Query): Result<BagIter, BagError> {
    var gathered :- GatherAsWritten(IdsInOrder(SelectedIds(meta, q)), meta.index);
    Ok(BagIter(SortBy(Window(gathered, q), TimeKey), 0))
  }

  /** The source's gathering succeeds exactly when every listed connection has an index, and then agrees with `Gather`. */
  lemma {:induction false} GatherAsWrittenSpec(ids: seq<u32>, index: map<u32, seq<IndexEntry>>)
    ensures GatherAsWritten(ids, index).Ok? <==> forall i | 0 <= i < |ids| :: ids[i] in index
    ensures GatherAsWritten(ids, index).Ok? ==> GatherAsWritten(ids, index).value == Gather(ids, index)
    ensures GatherAsWritten(ids, index).Err? ==> GatherAsWritten(ids, index).error == Panicked
  {
    if |ids| > 0 {
      var init := ids[..|ids| - 1];
      GatherAsWrittenSpec(init, index);
      assert forall i | 0 <= i < |init| :: init[i] == ids[i];
    }
  }

  /** One connection, `/a` of type `t`, which has no index entries. */
  const Unindexed: BagMetadata :=
    BagMetadata("2.0", map[],
      map[0 := ConnectionData(0, [0x2F, 0x61], [0x74], [], [], None, false)], map[], 0)

  /**
   * As written, querying every message of a bag with a connection that has
   * no index panics, where the corrected iterator yields no messages.
   */
  lemma UnindexedConnectionPanics()
    ensures BagIterNewAsWritten(Unindexed, All()) == Err(Panicked)
    ensures BagIterNew(Unindexed, All()).entries == []
  {
    var meta := Unindexed;
    AllSelectsEveryConnection(meta);
    var ids := IdsInOrder(meta.connections.Keys);
    IdsInOrderSpec(meta.connections.Keys);
    assert |ids| == 1 && ids[0] == 0;
    GatherAsWrittenSpec(ids, meta.index);
  }

  // --------------------------------------------------------------- iterator

  /** The location of one message's serialized data within a chunk's bytes. */
  datatype MessageView = MessageView(topic: seq<byte>, chunkLoc: nat, startIndex: nat, endIndex: nat)

  /** The iterator: its entry list and the position of the next entry. */
  datatype BagIter = BagIter(entries: seq<IndexEntry>, current: nat)

  /** What one call of `next` does: end the iteration, yield a message, or panic. */
  datatype Step = Finished | Yield(view: MessageView, rest: BagIter) | Panic

  /**
   * The test `next` puts a message's header through. The iterator below is
   * stated for any such test; `HeaderParses` is the one the source applies.
   */
  type HeaderCheck = seq<byte> -> bool

  /** `MessageDataHeader::from` succeeds. */
  predicate HeaderParses(header: seq<byte>) {
    MessageDataHeaderFrom(header).Ok?
  }

  /** Where the length-prefixed header at `offset` ends, when it lies inside the bytes. */
  function HeaderEnd(bytes: seq<byte>, offset: nat): (r: Option<nat>)
    ensures r.Some? ==> offset + 4 <= r.value <= |bytes|
  {
    match ParseLeU32At(bytes, offset)
    case Err(_) => None
    case Ok(headerLen) =>
      var headerEnd := offset + 4 + headerLen;
      if headerEnd > |bytes| then None else Some(headerEnd)
  }

  /**
   * The range of the message at `offset` in a chunk's bytes: a
   * length-prefixed message data header, then the 4-byte data length, which
   * the range includes. `None` where the source panics: a read past the
   * bytes, or a header that fails the check.
   */
  function MessageRange(bytes: seq<byte>, offset: nat, check: HeaderCheck): Option<(nat, nat)> {
    match HeaderEnd(bytes, offset)
    case None => None
    case Some(headerEnd) =>
      if !check(bytes[offset + 4..headerEnd]) then None
      else
        match ParseLeU32At(bytes, headerEnd)
        case Err(_) => None
        case Ok(dataLen) => Some((headerEnd, headerEnd + dataLen + 4))
  }

  /**
   * `BagIter::next`. Past the last entry it ends; otherwise it reports the
   * range of the entry's message in its chunk. A missing chunk ends the
   * iteration without moving on; a missing connection or an unreadable
   * message panics.
   */
  function NextWith(it: BagIter, bag: DecompressedBag, check: HeaderCheck): (s: Step)
    ensures it.current >= |it.entries| ==> s == Finished
    ensures s.Yield? ==> s.rest == BagIter(it.entries, it.current + 1)
  {
    if it.current >= |it.entries| then Finished
    else
      var data := it.entries[it.current];
      if data.connectionId !in bag.metadata.connections then Panic
      else
        var topic := bag.metadata.connections[data.connectionId].topic;
        if data.chunkPos !in bag.chunkBytes then Finished
        else
          match MessageRange(bag.chunkBytes[data.chunkPos], data.offset, check)
          case None => Panic
          case Some((start, end)) =>
            Yield(MessageView(topic, data.chunkPos, start, end), BagIter(it.entries, it.current + 1))
  }

  /** `BagIter::next` with the source's header check. */
  function Next(it: BagIter, bag: DecompressedBag): Step {
    NextWith(it, bag, HeaderParses)
  }

  /** The messages of a run of the iterator, and whether it ended in a panic. */
  datatype Run = Run(views: seq<MessageView>, panicked: bool)

  /** Calling `next` until it ends or panics. */
  function DrainWith(it: BagIter, bag: DecompressedBag, check: HeaderCheck): (r: Run)
    ensures it.current <= |it.entries| ==> |r.views| <= |it.entries| - it.current
    decreases |it.entries| - it.current
  {
    match NextWith(it, bag, check)
    case Finished => Run([], false)
    case Panic => Run([], true)
    case Yield(v, rest) =>
      var r := DrainWith(rest, bag, check);
      Run([v] + r.views, r.panicked)
  }

  /** The iterator run to its end with the source's header check. */
  function Drain(it: BagIter, bag: DecompressedBag): Run {
    DrainWith(it, bag, HeaderParses)
  }

  /** The bytes hold at `offset` a 4-byte header length, the header, and a 4-byte data length. */
  predicate Framed(bytes: seq<byte>, offset: nat) {
    && offset + 4 <= |bytes|
    && offset + 8 + LeValue(bytes[offset..offset + 4]) <= |bytes|
  }

  /** The header of the message at `offset`. */
  function HeaderAt(bytes: seq<byte>, offset: nat): seq<byte>
    requires Framed(bytes, offset)
  {
    bytes[offset + 4..offset + 4 + LeValue(bytes[offset..offset + 4])]
  }

  /** A framed message at `offset` whose header passes the check. */
  predicate MessageAt(bytes: seq<byte>, offset: nat, check: HeaderCheck) {
    Framed(bytes, offset) && check(HeaderAt(bytes, offset))
  }

  /** Where the data of the message at `offset` starts and ends, length prefix included. */
  function RangeAt(bytes: seq<byte>, offset: nat): (nat, nat)
    requires Framed(bytes, offset)
  {
    var headerEnd := offset + 4 + LeValue(bytes[offset..offset + 4]);
    (headerEnd, headerEnd + 4 + LeValue(bytes[headerEnd..headerEnd + 4]))
  }

  lemma ReadLe32(buf: seq<byte>, i: nat)
    requires i + 4 <= |buf|
    ensures ParseLeU32At(buf, i) == Ok(LeValue(buf[i..i + 4]))
  {
    LeValue4(buf[i..i + 4]);
  }

  /** A message that is there is read: its range is the one the layout gives. */
  lemma MessageRangeAt(bytes: seq<byte>, offset: nat, check: HeaderCheck)
    requires MessageAt(bytes, offset, check)
    ensures MessageRange(bytes, offset, check) == Some(RangeAt(bytes, offset))
  {
    ReadLe32(bytes, offset);
    ReadLe32(bytes, offset + 4 + LeValue(bytes[offset..offset + 4]));
  }

  /** Entry `e` can be read from `bag`: its connection and chunk exist, and its message is in the chunk. */
  predicate Readable(bag: DecompressedBag, e: IndexEntry, check: HeaderCheck) {
    && e.connectionId in bag.metadata.connections
    && e.chunkPos in bag.chunkBytes
    && MessageAt(bag.chunkBytes[e.chunkPos], e.offset, check)
  }

  /** The view `next` reports for a readable entry. */
  function ViewOf(bag: DecompressedBag, e: IndexEntry): MessageView
    requires e.connectionId in bag.metadata.connections
    requires e.chunkPos in bag.chunkBytes
    requires Framed(bag.chunkBytes[e.chunkPos], e.offset)
  {
    var range := RangeAt(bag.chunkBytes[e.chunkPos], e.offset);
    MessageView(bag.metadata.connections[e.connectionId].topic, e.chunkPos, range.0, range.1)
  }

  /** On a readable entry, `next` yields its view and moves on by one. */
  lemma NextReadable(it: BagIter, bag: DecompressedBag, check: HeaderCheck)
    requires it.current < |it.entries|
    requires Readable(bag, it.entries[it.current], check)
    ensures NextWith(it, bag, check) == Yield(ViewOf(bag, it.entries[it.current]), BagIter(it.entries, it.current + 1))
  {
    var e := it.entries[it.current];
    MessageRangeAt(bag.chunkBytes[e.chunkPos], e.offset, check);
  }

  /**
   * When every remaining entry is readable, the iterator yields exactly one
   * message per remaining entry, in entry order, and does not panic.
   */
  lemma {:induction false} DrainReadable(it: BagIter, bag: DecompressedBag, check: HeaderCheck)
    requires it.current <= |it.entries|
    requires forall i | it.current <= i < |it.entries| :: Readable(bag, it.entries[i], check)
    ensures !DrainWith(it, bag, check).panicked
    ensures |DrainWith(it, bag, check).views| == |it.entries| - it.current
    ensures forall i | 0 <= i < |DrainWith(it, bag, check).views| && Readable(bag, it.entries[it.current + i], check) ::
              DrainWith(it, bag, check).views[i] == ViewOf(bag, it.entries[it.current + i])
    decreases |it.entries| - it.current
  {
    if it.current < |it.entries| {
      NextReadable(it, bag, check);
      var rest := BagIter(it.entries, it.current + 1);
      DrainReadable(rest, bag, check);
      var tail := DrainWith(rest, bag, check);
      assert DrainWith(it, bag, check) == Run([ViewOf(bag, it.entries[it.current])] + tail.views, tail.panicked);
    }
  }

  /** A written message data header passes the source's check. */
  lemma WrittenHeaderParses(h: MessageDataHeaderRecord)
    ensures HeaderParses(EncodeFields(MessageDataHeaderFields(h)))
  {
    MessageDataHeaderRoundTrip(h);
  }

  /** A buffer holding a length-prefixed header and a data length at `p` frames that message. */
  lemma FramedMessage(bytes: seq<byte>, p: nat, hdr: seq<byte>, dataLen: nat, check: HeaderCheck)
    requires check(hdr)
    requires p + 8 + |hdr| + dataLen <= |bytes|
    requires LeValue(bytes[p..p + 4]) == |hdr|
    requires bytes[p + 4..p + 4 + |hdr|] == hdr
    requires LeValue(bytes[p + 4 + |hdr|..p + 8 + |hdr|]) == dataLen
    ensures MessageAt(bytes, p, check)
    ensures RangeAt(bytes, p).0 == p + 4 + |hdr| && RangeAt(bytes, p).1 == p + 8 + |hdr| + dataLen
  {
  }

  /**
   * `next` on an entry that points at a message data record in its chunk
   * yields the record's data, length prefix included, under the topic of
   * the entry's connection.
   */
  lemma NextOnRecord(it: BagIter, bag: DecompressedBag, h: MessageDataHeaderRecord,
                     pre: seq<byte>, data: seq<byte>, post: seq<byte>)
    requires it.current < |it.entries|
    requires it.entries[it.current].connectionId in bag.metadata.connections
    requires |data| < 0x1_0000_0000
    requires it.entries[it.current].chunkPos in bag.chunkBytes
    requires bag.chunkBytes[it.entries[it.current].chunkPos]
             == pre + EncodeRecord(EncodeFields(MessageDataHeaderFields(h)), data) + post
    requires it.entries[it.current].offset == |pre|
    ensures Next(it, bag).Yield?
    ensures var e := it.entries[it.current];
            var v := Next(it, bag).view;
            && v.topic == bag.metadata.connections[e.connectionId].topic
            && v.chunkLoc == e.chunkPos
            && v.startIndex <= v.endIndex <= |bag.chunkBytes[e.chunkPos]|
            && bag.chunkBytes[e.chunkPos][v.startIndex..v.endIndex] == LeBytes(|data|, 4) + data
  {
    MessageDataHeaderBytesAreShort(h);
    WrittenHeaderParses(h);
    NextOnFramed(it, bag, EncodeFields(MessageDataHeaderFields(h)), pre, data, post);
  }

  /** `next` on an entry that points at a record whose header passes the check. */
  lemma NextOnFramed(it: BagIter, bag: DecompressedBag, hdr: seq<byte>,
                     pre: seq<byte>, data: seq<byte>, post: seq<byte>)
    requires it.current < |it.entries|
    requires it.entries[it.current].connectionId in bag.metadata.connections
    requires |hdr| < 0x1_0000_0000 && |data| < 0x1_0000_0000 && HeaderParses(hdr)
    requires it.entries[it.current].chunkPos in bag.chunkBytes
    requires bag.chunkBytes[it.entries[it.current].chunkPos] == pre + EncodeRecord(hdr, data) + post
    requires it.entries[it.current].offset == |pre|
    ensures Next(it, bag).Yield?
    ensures var e := it.entries[it.current];
            var v := Next(it, bag).view;
            && v.topic == bag.metadata.connections[e.connectionId].topic
            && v.chunkLoc == e.chunkPos
            && v.startIndex <= v.endIndex <= |bag.chunkBytes[e.chunkPos]|
            && bag.chunkBytes[e.chunkPos][v.startIndex..v.endIndex] == LeBytes(|data|, 4) + data
  {
    var e := it.entries[it.current];
    var p := e.offset;
    RecordInChunk(bag.chunkBytes[e.chunkPos], p, pre, hdr, data, post);
    NextOnRange(it, bag, LeBytes(|data|, 4) + data);
  }

  /** A buffer holding a record at `p == |pre|` frames it, with its length-prefixed data in range. */
  lemma RecordInChunk(bytes: seq<byte>, p: nat, pre: seq<byte>, hdr: seq<byte>, data: seq<byte>, post: seq<byte>)
    requires |hdr| < 0x1_0000_0000 && |data| < 0x1_0000_0000 && HeaderParses(hdr)
    requires bytes == pre + EncodeRecord(hdr, data) + post && p == |pre|
    ensures MessageAt(bytes, p, HeaderParses)
    ensures var span := RangeAt(bytes, p); span.1 <= |bytes| && bytes[span.0..span.1] == LeBytes(|data|, 4) + data
  {
    var a := LeBytes(|hdr|, 4);
    var b := LeBytes(|data|, 4);
    LengthPrefix(|hdr|, a);
    LengthPrefix(|data|, b);
    FramedPieces(bytes, pre, a, hdr, b, data, post, HeaderParses);
  }

  /**
   * A message written at `|pre|` as a 4-byte header length `a`, the header,
   * a 4-byte data length `b` and the data is framed there, and its range
   * covers `b` and the data.
   */
  lemma FramedPieces(bytes: seq<byte>, pre: seq<byte>, a: seq<byte>, hdr: seq<byte>,
                     b: seq<byte>, data: seq<byte>, post: seq<byte>, check: HeaderCheck)
    requires |a| == 4 && |b| == 4 && LeValue(a) == |hdr| && LeValue(b) == |data| && check(hdr)
    requires bytes == pre + (a + hdr + b + data) + post
    ensures MessageAt(bytes, |pre|, check)
    ensures var span := RangeAt(bytes, |pre|); span.1 <= |bytes| && bytes[span.0..span.1] == b + data
  {
    var p := |pre|;
    PiecesLayout(bytes, pre, a, hdr, b, data, post);
    FramedMessage(bytes, p, hdr, |data|, check);
    RangeSlice(bytes, p, p + 4 + |hdr|, p + 8 + |hdr| + |data|, b + data);
  }

  /** The bytes a range covers, once its ends are known. */
  lemma RangeSlice(bytes: seq<byte>, p: nat, start: nat, end: nat, payload: seq<byte>)
    requires Framed(bytes, p)
    requires RangeAt(bytes, p).0 == start && RangeAt(bytes, p).1 == end
    requires start <= end <= |bytes| && bytes[start..end] == payload
    ensures var span := RangeAt(bytes, p); span.1 <= |bytes| && bytes[span.0..span.1] == payload
  {
  }

  /** `next` on an entry whose message occupies a known range of its chunk. */
  lemma NextOnRange(it: BagIter, bag: DecompressedBag, payload: seq<byte>)
    requires it.current < |it.entries|
    requires Readable(bag, it.entries[it.current], HeaderParses)
    requires var e := it.entries[it.current];
             var span := RangeAt(bag.chunkBytes[e.chunkPos], e.offset);
             span.1 <= |bag.chunkBytes[e.chunkPos]| && bag.chunkBytes[e.chunkPos][span.0..span.1] == payload
    ensures Next(it, bag).Yield?
    ensures var e := it.entries[it.current];
            var v := Next(it, bag).view;
            && v.topic == bag.metadata.connections[e.connectionId].topic
            && v.chunkLoc == e.chunkPos
            && v.startIndex <= v.endIndex <= |bag.chunkBytes[e.chunkPos]|
            && bag.chunkBytes[e.chunkPos][v.startIndex..v.endIndex] == payload
  {
    NextReadable(it, bag, HeaderParses);
  }

  lemma MessageDataHeaderBytesAreShort(h: MessageDataHeaderRecord)
    ensures |EncodeFields(MessageDataHeaderFields(h))| < 100
  {
    var fs := MessageDataHeaderFields(h);
    assert EncodeFields(fs) == EncodeField(fs[0]) + EncodeFields(fs[1..]);
    assert EncodeFields(fs[1..]) == EncodeField(fs[1]) + EncodeFields(fs[2..]);
    assert EncodeFields(fs[2..]) == EncodeField(fs[2]) + EncodeFields(fs[3..]);
  }

  /** Slices of a buffer made of a prefix, two length-prefixed pieces and a suffix. */
  lemma PiecesLayout(buf: seq<byte>, pre: seq<byte>, a: seq<byte>, hdr: seq<byte>, b: seq<byte>, data: seq<byte>, post: seq<byte>)
    requires |a| == 4 && |b| == 4
    requires buf == pre + (a + hdr + b + data) + post
    ensures var p := |pre|;
            && |buf| == p + 8 + |hdr| + |data| + |post|
            && buf[p..p + 4] == a
            && buf[p + 4..p + 4 + |hdr|] == hdr
            && buf[p + 4 + |hdr|..p + 8 + |hdr|] == b
            && buf[p + 4 + |hdr|..p + 8 + |hdr| + |data|] == b + data
  {
    var p := |pre|;
    MiddleSlice(buf, pre, a, hdr + b + data + post);
    MiddleSlice(buf, pre + a, hdr, b + data + post);
    MiddleSlice(buf, pre + a + hdr, b, data + post);
    MiddleSlice(buf, pre + a + hdr, b + data, post);
  }

  /** The middle piece of a three-part concatenation, sliced back out. */
  lemma MiddleSlice(buf: seq<byte>, x: seq<byte>, y: seq<byte>, z: seq<byte>)
    requires buf == x + y + z
    ensures buf[|x|..|x| + |y|] == y
  {
  }
}
