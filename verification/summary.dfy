/**
 * The summary functions of `BagMetadata` (frost/src/lib.rs): connection ids by
 * topic and by type, message counts, the time span, and compression statistics.
 * Maps the source iterates as `BTreeMap`s are visited in ascending key order.
 */
module Summary {
  import opened Wrappers
  import opened Bytes
  import opened RosTime
  import opened Headers
  import opened Records
  import opened Ordered

  // ------------------------------------------------------- ordered iteration

  /** A set of ids in ascending order. */
  function IdsInOrder(s: set<u32>): (r: seq<u32>)
    ensures |r| == |s|
  {
    var ks := SortedElems(s);
    SortedElemsMembers(s);
    seq(|ks|, i requires 0 <= i < |ks| => ks[i] as u32)
  }

  /** The ordered ids are exactly the set's, each once, in increasing order. */
  lemma IdsInOrderSpec(s: set<u32>)
    ensures forall i | 0 <= i < |IdsInOrder(s)| :: IdsInOrder(s)[i] in s
    ensures forall id | id in s :: id in IdsInOrder(s)
    ensures IdsIncreasing(IdsInOrder(s))
  {
    var ks := SortedElems(s);
    var r := IdsInOrder(s);
    SortedElemsMembers(s);
    SortedElemsIncreasing(s);
    assert forall i | 0 <= i < |r| :: r[i] == ks[i];
    forall id | id in s ensures id in r {
      var i :| 0 <= i < |ks| && ks[i] == id;
      assert r[i] == id;
    }
  }

  /** A map's keys in ascending order. */
  function KeysInOrder<V>(m: map<u32, V>): (r: seq<u32>)
    ensures |r| == |m|
  {
    IdsInOrder(m.Keys)
  }

  /** The ordered keys are exactly the map's keys, each once, in increasing order. */
  lemma KeysInOrderSpec<V>(m: map<u32, V>)
    ensures forall i | 0 <= i < |KeysInOrder(m)| :: KeysInOrder(m)[i] in m
    ensures forall id | id in m :: id in KeysInOrder(m)
    ensures IdsIncreasing(KeysInOrder(m))
  {
    IdsInOrderSpec(m.Keys);
  }

  /** `connection_data.values()`: the connections in ascending id order. */
  function ConnectionsInOrder(conns: map<u32, ConnectionData>): (r: seq<ConnectionData>)
    ensures |r| == |conns|
  {
    var ids := KeysInOrder(conns);
    KeysInOrderSpec(conns);
    seq(|ids|, i requires 0 <= i < |ids| => conns[ids[i]])
  }

  /** Every connection is filed under its own id, as `ConnectionMap` builds them. */
  predicate WellKeyed(conns: map<u32, ConnectionData>) {
    forall id | id in conns :: conns[id].connectionId == id
  }

  // ---------------------------------------------------------------- grouping

  /** The two groupings of connection ids the bag offers. */
  datatype Grouping = ByTopic | ByType

  function KeyOf(g: Grouping, c: ConnectionData): seq<byte> {
    match g
    case ByTopic => c.topic
    case ByType => c.dataType
  }

  /** The fold of `topic_to_connection_ids` / `type_to_connection_ids`: push each id onto its key's list. */
  function GroupIds(g: Grouping, cs: seq<ConnectionData>): map<seq<byte>, seq<u32>> {
    if |cs| == 0 then map[]
    else
      var acc := GroupIds(g, cs[..|cs| - 1]);
      var c := cs[|cs| - 1];
      var k := KeyOf(g, c);
      acc[k := (if k in acc then acc[k] else []) + [c.connectionId]]
  }

  predicate IdsIncreasing(ids: seq<u32>) {
    forall i, j | 0 <= i < j < |ids| :: ids[i] < ids[j]
  }

  predicate ConnectionIdsIncreasing(cs: seq<ConnectionData>) {
    forall i, j | 0 <= i < j < |cs| :: cs[i].connectionId < cs[j].connectionId
  }

  /** `k` is the key of some connection of `cs`. */
  predicate KeyOccurs(g: Grouping, cs: seq<ConnectionData>, k: seq<byte>) {
    exists i | 0 <= i < |cs| :: KeyOf(g, cs[i]) == k
  }

  /** `id` is the id of some connection of `cs` whose key is `k`. */
  predicate IdHasKey(g: Grouping, cs: seq<ConnectionData>, k: seq<byte>, id: u32) {
    exists i | 0 <= i < |cs| :: cs[i].connectionId == id && KeyOf(g, cs[i]) == k
  }

  /** The grouping has a list for exactly the keys that occur. */
  lemma {:induction false} GroupIdsKeys(g: Grouping, cs: seq<ConnectionData>)
    ensures forall k :: k in GroupIds(g, cs) <==> KeyOccurs(g, cs, k)
  {
    if |cs| > 0 {
      var n := |cs| - 1;
      var init := cs[..n];
      var key := KeyOf(g, cs[n]);
      GroupIdsKeys(g, init);
      forall k ensures k in GroupIds(g, cs) <==> KeyOccurs(g, cs, k) {
        if KeyOccurs(g, cs, k) && k != key {
          var i :| 0 <= i < |cs| && KeyOf(g, cs[i]) == k;
          assert init[i] == cs[i];
        }
        if KeyOccurs(g, init, k) {
          var i :| 0 <= i < |init| && KeyOf(g, init[i]) == k;
          assert init[i] == cs[i];
        }
        if k == key {
          assert KeyOf(g, cs[n]) == k;
        }
      }
    }
  }

  /** Each key's list holds exactly the ids of the connections with that key. */
  lemma {:induction false} GroupIdsMembers(g: Grouping, cs: seq<ConnectionData>)
    ensures forall k, id | k in GroupIds(g, cs) :: id in GroupIds(g, cs)[k] <==> IdHasKey(g, cs, k, id)
  {
    if |cs| > 0 {
      var n := |cs| - 1;
      var init := cs[..n];
      var c := cs[n];
      var key := KeyOf(g, c);
      GroupIdsMembers(g, init);
      GroupIdsKeys(g, init);
      var acc := GroupIds(g, init);
      var m := GroupIds(g, cs);
      forall k, id | k in m ensures id in m[k] <==> IdHasKey(g, cs, k, id) {
        if IdHasKey(g, init, k, id) {
          var i :| 0 <= i < |init| && init[i].connectionId == id && KeyOf(g, init[i]) == k;
          assert KeyOccurs(g, init, k);
        }
        if IdHasKey(g, cs, k, id) && !(k == key && id == c.connectionId) {
          var i :| 0 <= i < |cs| && cs[i].connectionId == id && KeyOf(g, cs[i]) == k;
          assert i < n;
          assert init[i] == cs[i];
        }
        if k in acc && IdHasKey(g, init, k, id) {
          var i :| 0 <= i < |init| && init[i].connectionId == id && KeyOf(g, init[i]) == k;
          assert init[i] == cs[i];
        }
        if k == key && id == c.connectionId {
          assert cs[n].connectionId == id;
        }
      }
    }
  }

  /** Over connections in increasing id order, every list is increasing. */
  lemma {:induction false} GroupIdsIncreasing(g: Grouping, cs: seq<ConnectionData>)
    requires ConnectionIdsIncreasing(cs)
    ensures forall k | k in GroupIds(g, cs) :: IdsIncreasing(GroupIds(g, cs)[k])
  {
    if |cs| > 0 {
      var n := |cs| - 1;
      var init := cs[..n];
      var c := cs[n];
      var key := KeyOf(g, c);
      assert ConnectionIdsIncreasing(init);
      GroupIdsIncreasing(g, init);
      GroupIdsMembers(g, init);
      var acc := GroupIds(g, init);
      var m := GroupIds(g, cs);
      if key in acc {
        var ids := acc[key];
        forall i | 0 <= i < |ids| ensures ids[i] < c.connectionId {
          assert IdHasKey(g, init, key, ids[i]);
          var j :| 0 <= j < |init| && init[j].connectionId == ids[i] && KeyOf(g, init[j]) == key;
          assert cs[j].connectionId < cs[n].connectionId;
        }
        assert m[key] == ids + [c.connectionId];
      }
    }
  }

  /** `topic_to_connection_ids` / `type_to_connection_ids`. */
  function ConnectionIdsBy(g: Grouping, conns: map<u32, ConnectionData>): map<seq<byte>, seq<u32>> {
    GroupIds(g, ConnectionsInOrder(conns))
  }

  /** Listed in id order, a bag's connections have increasing ids. */
  lemma ConnectionsInOrderSpec(conns: map<u32, ConnectionData>)
    requires WellKeyed(conns)
    ensures forall i | 0 <= i < |ConnectionsInOrder(conns)| ::
              && KeysInOrder(conns)[i] in conns
              && ConnectionsInOrder(conns)[i] == conns[KeysInOrder(conns)[i]]
    ensures ConnectionIdsIncreasing(ConnectionsInOrder(conns))
  {
    KeysInOrderSpec(conns);
  }

  /** A key occurs among the listed connections iff some connection of the bag has it. */
  lemma KeyOccursInBag(g: Grouping, conns: map<u32, ConnectionData>, k: seq<byte>)
    requires WellKeyed(conns)
    ensures KeyOccurs(g, ConnectionsInOrder(conns), k) <==> exists id | id in conns :: KeyOf(g, conns[id]) == k
  {
    var ids := KeysInOrder(conns);
    var cs := ConnectionsInOrder(conns);
    ConnectionsInOrderSpec(conns);
    KeysInOrderSpec(conns);
    if exists id | id in conns :: KeyOf(g, conns[id]) == k {
      var id :| id in conns && KeyOf(g, conns[id]) == k;
      var i :| 0 <= i < |ids| && ids[i] == id;
      assert KeyOf(g, cs[i]) == k;
    }
  }

  /** An id is listed with a key iff the bag's connection with that id has the key. */
  lemma IdHasKeyInBag(g: Grouping, conns: map<u32, ConnectionData>, k: seq<byte>, id: u32)
    requires WellKeyed(conns)
    ensures IdHasKey(g, ConnectionsInOrder(conns), k, id) <==> id in conns && KeyOf(g, conns[id]) == k
  {
    var ids := KeysInOrder(conns);
    var cs := ConnectionsInOrder(conns);
    ConnectionsInOrderSpec(conns);
    KeysInOrderSpec(conns);
    if id in conns && KeyOf(g, conns[id]) == k {
      var i :| 0 <= i < |ids| && ids[i] == id;
      assert cs[i].connectionId == id && KeyOf(g, cs[i]) == k;
    }
  }

  /**
   * For a bag's connections, each key that some connection has maps to the
   * increasing list of exactly the ids of the connections with that key.
   */
  lemma ConnectionIdsBySpec(g: Grouping, conns: map<u32, ConnectionData>)
    requires WellKeyed(conns)
    ensures forall k :: k in ConnectionIdsBy(g, conns) <==> exists id | id in conns :: KeyOf(g, conns[id]) == k
    ensures forall k | k in ConnectionIdsBy(g, conns) :: IdsIncreasing(ConnectionIdsBy(g, conns)[k])
    ensures forall k, id | k in ConnectionIdsBy(g, conns) ::
              id in ConnectionIdsBy(g, conns)[k] <==> id in conns && KeyOf(g, conns[id]) == k
  {
    var cs := ConnectionsInOrder(conns);
    ConnectionsInOrderSpec(conns);
    GroupIdsKeys(g, cs);
    GroupIdsMembers(g, cs);
    GroupIdsIncreasing(g, cs);
    forall k ensures KeyOccurs(g, cs, k) <==> exists id | id in conns :: KeyOf(g, conns[id]) == k {
      KeyOccursInBag(g, conns, k);
    }
    forall k, id ensures IdHasKey(g, cs, k, id) <==> id in conns && KeyOf(g, conns[id]) == k {
      IdHasKeyInBag(g, conns, k, id);
    }
  }

  /** An id is listed under a key exactly when its connection has that key. */
  lemma ConnectionIdsByMember(g: Grouping, conns: map<u32, ConnectionData>, k: seq<byte>, id: u32)
    requires WellKeyed(conns)
    ensures (k in ConnectionIdsBy(g, conns) && id in ConnectionIdsBy(g, conns)[k]) <==>
              (id in conns && KeyOf(g, conns[id]) == k)
  {
    ConnectionIdsBySpec(g, conns);
  }

  // ------------------------------------------------------------------ counts

  /** The number of index entries of a connection; a connection without an index has none. */
  function IndexCount(index: map<u32, seq<IndexEntry>>, id: u32): nat {
    if id in index then |index[id]| else 0
  }

  /** The entries of the listed connections, summed in list order. */
  function SumCounts(ids: seq<u32>, index: map<u32, seq<IndexEntry>>): nat {
    if |ids| == 0 then 0
    else SumCounts(ids[..|ids| - 1], index) + IndexCount(index, ids[|ids| - 1])
  }

  /** `message_count`: the lengths of all index lists, summed. */
  function MessageCount(meta: BagMetadata): nat {
    SumCounts(KeysInOrder(meta.index), meta.index)
  }

  /** `topic_message_counts`: for each topic, the entries of its connections. */
  function TopicMessageCounts(meta: BagMetadata): map<seq<byte>, nat> {
    var groups := ConnectionIdsBy(ByTopic, meta.connections);
    map t | t in groups :: SumCounts(groups[t], meta.index)
  }

  // An order-free reference sum over a set of connection ids.

  ghost function PickId(s: set<u32>): (x: u32)
    requires s != {}
    ensures x in s
  {
    var x :| x in s; x
  }

  /** The index entries of the connections in `s`, each connection counted once. */
  ghost function CountOver(s: set<u32>, index: map<u32, seq<IndexEntry>>): nat
    decreases |s|
  {
    if s == {} then 0
    else
      var x := PickId(s);
      IndexCount(index, x) + CountOver(s - {x}, index)
  }

  /** Any element of the set can be counted first. */
  lemma {:induction false} CountOverRemove(s: set<u32>, x: u32, index: map<u32, seq<IndexEntry>>)
    requires x in s
    ensures CountOver(s, index) == IndexCount(index, x) + CountOver(s - {x}, index)
    decreases |s|
  {
    var y := PickId(s);
    if y != x {
      CountOverRemove(s - {y}, x, index);
      CountOverRemove(s - {x}, y, index);
      assert s - {y} - {x} == s - {x} - {y};
    }
  }

  lemma {:induction false} CountOverUnion(a: set<u32>, b: set<u32>, index: map<u32, seq<IndexEntry>>)
    requires a !! b
    ensures CountOver(a + b, index) == CountOver(a, index) + CountOver(b, index)
    decreases |a|
  {
    if a != {} {
      var x := PickId(a);
      CountOverRemove(a + b, x, index);
      assert (a + b) - {x} == (a - {x}) + b;
      CountOverUnion(a - {x}, b, index);
      CountOverRemove(a, x, index);
    } else {
      assert a + b == b;
    }
  }

  /** Connections without an index add nothing. */
  lemma {:induction false} CountOverIndexed(s: set<u32>, index: map<u32, seq<IndexEntry>>)
    ensures CountOver(s, index) == CountOver(s * index.Keys, index)
    decreases |s|
  {
    if s != {} {
      var x := PickId(s);
      CountOverIndexed(s - {x}, index);
      assert (s - {x}) * index.Keys == (s * index.Keys) - {x};
      if x in index {
        CountOverRemove(s * index.Keys, x, index);
      } else {
        assert s * index.Keys == (s - {x}) * index.Keys;
      }
    }
  }

  /** A list of distinct ids sums to the count over its set of ids. */
  lemma {:induction false} SumCountsIsCountOver(ids: seq<u32>, index: map<u32, seq<IndexEntry>>)
    requires IdsIncreasing(ids)
    ensures SumCounts(ids, index) == CountOver(set i | 0 <= i < |ids| :: ids[i], index)
  {
    var s := set i | 0 <= i < |ids| :: ids[i];
    if |ids| > 0 {
      var n := |ids| - 1;
      var init := ids[..n];
      var rest := set i | 0 <= i < |init| :: init[i];
      assert IdsIncreasing(init);
      SumCountsIsCountOver(init, index);
      assert s - {ids[n]} == rest by {
        forall x | x in s - {ids[n]} ensures x in rest {
          var i :| 0 <= i < |ids| && ids[i] == x;
          assert init[i] == x;
        }
        forall x | x in rest ensures x in s - {ids[n]} {
          var i :| 0 <= i < |init| && init[i] == x;
          assert ids[i] == x && ids[i] < ids[n];
        }
      }
      CountOverRemove(s, ids[n], index);
    }
  }

  /** `message_count` counts every index list once. */
  lemma MessageCountSpec(meta: BagMetadata)
    ensures MessageCount(meta) == CountOver(meta.index.Keys, meta.index)
  {
    var ids := KeysInOrder(meta.index);
    KeysInOrderSpec(meta.index);
    SumCountsIsCountOver(ids, meta.index);
    assert (set i | 0 <= i < |ids| :: ids[i]) == meta.index.Keys by {
      forall x | x in meta.index ensures x in set i | 0 <= i < |ids| :: ids[i] {
        var i :| 0 <= i < |ids| && ids[i] == x;
      }
    }
  }

  /** The connection ids of the bag whose topic is `t`. */
  function IdsOfTopic(conns: map<u32, ConnectionData>, t: seq<byte>): set<u32> {
    set id | id in conns && conns[id].topic == t
  }

  /** The list of a topic's ids sums to the count over that topic's connections. */
  lemma TopicCountIs(meta: BagMetadata, t: seq<byte>)
    requires WellKeyed(meta.connections)
    requires t in ConnectionIdsBy(ByTopic, meta.connections)
    ensures SumCounts(ConnectionIdsBy(ByTopic, meta.connections)[t], meta.index)
            == CountOver(IdsOfTopic(meta.connections, t), meta.index)
  {
    var ids := ConnectionIdsBy(ByTopic, meta.connections)[t];
    ConnectionIdsBySpec(ByTopic, meta.connections);
    SumCountsIsCountOver(ids, meta.index);
    assert (set i | 0 <= i < |ids| :: ids[i]) == IdsOfTopic(meta.connections, t) by {
      forall x | x in IdsOfTopic(meta.connections, t) ensures x in set i | 0 <= i < |ids| :: ids[i] {
        var i :| 0 <= i < |ids| && ids[i] == x;
      }
    }
  }

  /**
   * `topic_message_counts` has an entry for exactly the topics of the bag's
   * connections, each the entries of that topic's connections, where a
   * connection without an index counts as none.
   */
  lemma TopicMessageCountsSpec(meta: BagMetadata)
    requires WellKeyed(meta.connections)
    ensures forall t :: t in TopicMessageCounts(meta) <==> exists id | id in meta.connections :: meta.connections[id].topic == t
    ensures forall t | t in TopicMessageCounts(meta) ::
              TopicMessageCounts(meta)[t] == CountOver(IdsOfTopic(meta.connections, t), meta.index)
  {
    ConnectionIdsBySpec(ByTopic, meta.connections);
    forall t | t in TopicMessageCounts(meta)
      ensures TopicMessageCounts(meta)[t] == CountOver(IdsOfTopic(meta.connections, t), meta.index)
    {
      TopicCountIs(meta, t);
    }
  }

  ghost function PickName(names: set<seq<byte>>): (t: seq<byte>)
    requires names != {}
    ensures t in names
  {
    var t :| t in names; t
  }

  /** The values of `m` at the keys `names`, summed. */
  ghost function SumOver(names: set<seq<byte>>, m: map<seq<byte>, nat>): nat
    requires names <= m.Keys
    decreases |names|
  {
    if names == {} then 0
    else
      var t := PickName(names);
      m[t] + SumOver(names - {t}, m)
  }

  /** The connections of `ids` whose topic is one of `names`. */
  function IdsWithTopicIn(conns: map<u32, ConnectionData>, ids: set<u32>, names: set<seq<byte>>): set<u32>
    requires ids <= conns.Keys
  {
    set id | id in ids && conns[id].topic in names
  }

  /** Per-topic counts over a set of connections add up to the count over all of them. */
  lemma {:induction false} PartitionByTopic(names: set<seq<byte>>, ids: set<u32>, conns: map<u32, ConnectionData>,
                                            counts: map<seq<byte>, nat>, index: map<u32, seq<IndexEntry>>)
    requires ids <= conns.Keys && names <= counts.Keys
    requires forall t | t in names :: counts[t] == CountOver(IdsWithTopicIn(conns, ids, {t}), index)
    ensures SumOver(names, counts) == CountOver(IdsWithTopicIn(conns, ids, names), index)
    decreases |names|
  {
    if names == {} {
      assert IdsWithTopicIn(conns, ids, names) == {};
    } else {
      var t := PickName(names);
      PartitionByTopic(names - {t}, ids, conns, counts, index);
      assert IdsWithTopicIn(conns, ids, names)
             == IdsWithTopicIn(conns, ids, {t}) + IdsWithTopicIn(conns, ids, names - {t});
      CountOverUnion(IdsWithTopicIn(conns, ids, {t}), IdsWithTopicIn(conns, ids, names - {t}), index);
    }
  }

  /** The per-topic counts, restated over topic sets of one topic. */
  lemma TopicCountsAsPartition(meta: BagMetadata)
    requires WellKeyed(meta.connections)
    ensures var counts := TopicMessageCounts(meta);
            forall t | t in counts.Keys ::
              counts[t] == CountOver(IdsWithTopicIn(meta.connections, meta.connections.Keys, {t}), meta.index)
  {
    var conns := meta.connections;
    TopicMessageCountsSpec(meta);
    forall t ensures IdsWithTopicIn(conns, conns.Keys, {t}) == IdsOfTopic(conns, t) {
    }
  }

  /** Every connection's topic has a count. */
  lemma TopicsCoverConnections(meta: BagMetadata)
    requires WellKeyed(meta.connections)
    ensures IdsWithTopicIn(meta.connections, meta.connections.Keys, TopicMessageCounts(meta).Keys)
            == meta.connections.Keys
  {
    TopicMessageCountsSpec(meta);
  }

  /**
   * When every indexed connection is one of the bag's connections, the
   * per-topic message counts add up to the bag's message count.
   */
  lemma TopicCountsAddUp(meta: BagMetadata)
    requires WellKeyed(meta.connections)
    requires meta.index.Keys <= meta.connections.Keys
    ensures SumOver(TopicMessageCounts(meta).Keys, TopicMessageCounts(meta)) == MessageCount(meta)
  {
    var counts := TopicMessageCounts(meta);
    var conns := meta.connections;
    TopicCountsAsPartition(meta);
    PartitionByTopic(counts.Keys, conns.Keys, conns, counts, meta.index);
    TopicsCoverConnections(meta);
    CountOverIndexed(conns.Keys, meta.index);
    assert conns.Keys * meta.index.Keys == meta.index.Keys;
    MessageCountSpec(meta);
  }

  // -------------------------------------------------------------- time span

  /** `chunk_metadata.values()`: the chunks in ascending offset order. */
  function ChunksInOrder(chunks: map<nat, ChunkMetadata>): (r: seq<ChunkMetadata>)
    ensures |r| == |chunks|
  {
    var ks := SortedElems(chunks.Keys);
    SortedElemsMembers(chunks.Keys);
    seq(|ks|, i requires 0 <= i < |ks| => chunks[ks[i]])
  }

  /** The chunk listed at `i` is the chunk at the `i`-th offset, and every chunk is listed. */
  lemma ChunksInOrderSpec(chunks: map<nat, ChunkMetadata>)
    ensures forall i | 0 <= i < |ChunksInOrder(chunks)| ::
              && SortedElems(chunks.Keys)[i] in chunks
              && ChunksInOrder(chunks)[i] == chunks[SortedElems(chunks.Keys)[i]]
    ensures forall k | k in chunks :: exists i | 0 <= i < |ChunksInOrder(chunks)| :: SortedElems(chunks.Keys)[i] == k
  {
    SortedElemsMembers(chunks.Keys);
    var ks := SortedElems(chunks.Keys);
    forall k | k in chunks ensures exists i | 0 <= i < |ks| :: ks[i] == k {
      assert k in ks;
    }
  }

  /** `ts[i]` is a least time of `ts`, and no earlier time is as small. */
  predicate IsFirstMin(ts: seq<Time>, i: nat) {
    && i < |ts|
    && (forall j | 0 <= j < |ts| :: Le(ts[i], ts[j]))
    && (forall j | 0 <= j < i :: Cmp(ts[j], ts[i]) == Greater)
  }

  /** `ts[i]` is a greatest time of `ts`, and no later time is as large. */
  predicate IsLastMax(ts: seq<Time>, i: nat) {
    && i < |ts|
    && (forall j | 0 <= j < |ts| :: Le(ts[j], ts[i]))
    && (forall j | i < j < |ts| :: Cmp(ts[j], ts[i]) == Less)
  }

  /** `Iterator::min`: the first of the least elements. */
  function FirstMin(ts: seq<Time>): (r: Option<Time>)
    ensures r.None? <==> |ts| == 0
  {
    if |ts| == 0 then None
    else
      var m := FirstMin(ts[..|ts| - 1]);
      var t := ts[|ts| - 1];
      if m.None? || Cmp(t, m.value) == Less then Some(t) else m
  }

  /** `Iterator::max`: the last of the greatest elements. */
  function LastMax(ts: seq<Time>): (r: Option<Time>)
    ensures r.None? <==> |ts| == 0
  {
    if |ts| == 0 then None
    else
      var m := LastMax(ts[..|ts| - 1]);
      var t := ts[|ts| - 1];
      if m.None? || Cmp(t, m.value) != Less then Some(t) else m
  }

  /** Appending a time keeps the first least time, or replaces it by a strictly smaller one. */
  lemma FirstMinExtend(ts: seq<Time>, i: nat)
    requires |ts| > 1 && IsFirstMin(ts[..|ts| - 1], i)
    ensures Cmp(ts[|ts| - 1], ts[i]) == Less ==> IsFirstMin(ts, |ts| - 1)
    ensures Cmp(ts[|ts| - 1], ts[i]) != Less ==> IsFirstMin(ts, i)
  {
    var n := |ts| - 1;
    var init := ts[..n];
    assert forall j | 0 <= j < n :: ts[j] == init[j];
    if Cmp(ts[n], ts[i]) == Less {
      forall j | 0 <= j < |ts| ensures Nanos(ts[n]) <= Nanos(ts[j]) {
        if j < n { assert Le(init[i], init[j]); }
      }
      forall j | 0 <= j < n ensures Nanos(ts[j]) > Nanos(ts[n]) {
        assert Le(init[i], init[j]);
      }
    } else {
      forall j | 0 <= j < |ts| ensures Nanos(ts[i]) <= Nanos(ts[j]) {
        if j < n { assert Le(init[i], init[j]); }
      }
      forall j | 0 <= j < i ensures Nanos(ts[j]) > Nanos(ts[i]) {
        assert Cmp(init[j], init[i]) == Greater;
      }
    }
  }

  lemma {:induction false} FirstMinSpec(ts: seq<Time>)
    requires |ts| > 0
    ensures exists i: nat :: IsFirstMin(ts, i) && FirstMin(ts) == Some(ts[i])
  {
    var n := |ts| - 1;
    var init := ts[..n];
    if n == 0 {
      assert IsFirstMin(ts, 0);
    } else {
      FirstMinSpec(init);
      var i: nat :| IsFirstMin(init, i) && FirstMin(init) == Some(init[i]);
      assert init[i] == ts[i];
      FirstMinExtend(ts, i);
      if Cmp(ts[n], ts[i]) == Less {
        assert FirstMin(ts) == Some(ts[n]);
      } else {
        assert FirstMin(ts) == Some(ts[i]);
      }
    }
  }

  /** Appending a time keeps the last greatest time, or replaces it by a time at least as large. */
  lemma LastMaxExtend(ts: seq<Time>, i: nat)
    requires |ts| > 1 && IsLastMax(ts[..|ts| - 1], i)
    ensures Cmp(ts[|ts| - 1], ts[i]) != Less ==> IsLastMax(ts, |ts| - 1)
    ensures Cmp(ts[|ts| - 1], ts[i]) == Less ==> IsLastMax(ts, i)
  {
    var n := |ts| - 1;
    var init := ts[..n];
    assert forall j | 0 <= j < n :: ts[j] == init[j];
    if Cmp(ts[n], ts[i]) != Less {
      forall j | 0 <= j < |ts| ensures Nanos(ts[j]) <= Nanos(ts[n]) {
        if j < n { assert Le(init[j], init[i]); }
      }
    } else {
      forall j | 0 <= j < |ts| ensures Nanos(ts[j]) <= Nanos(ts[i]) {
        if j < n { assert Le(init[j], init[i]); }
      }
      forall j | i < j < |ts| ensures Nanos(ts[j]) < Nanos(ts[i]) {
        if j < n { assert Cmp(init[j], init[i]) == Less; }
      }
    }
  }

  lemma {:induction false} LastMaxSpec(ts: seq<Time>)
    requires |ts| > 0
    ensures exists i: nat :: IsLastMax(ts, i) && LastMax(ts) == Some(ts[i])
  {
    var n := |ts| - 1;
    var init := ts[..n];
    if n == 0 {
      assert IsLastMax(ts, 0);
    } else {
      LastMaxSpec(init);
      var i: nat :| IsLastMax(init, i) && LastMax(init) == Some(init[i]);
      assert init[i] == ts[i];
      LastMaxExtend(ts, i);
      if Cmp(ts[n], ts[i]) != Less {
        assert LastMax(ts) == Some(ts[n]);
      } else {
        assert LastMax(ts) == Some(ts[i]);
      }
    }
  }

  function StartTimes(chunks: map<nat, ChunkMetadata>): (r: seq<Time>)
    ensures |r| == |chunks|
  {
    var ks := SortedElems(chunks.Keys);
    SortedElemsMembers(chunks.Keys);
    seq(|ks|, i requires 0 <= i < |ks| => chunks[ks[i]].startTime)
  }

  function EndTimes(chunks: map<nat, ChunkMetadata>): (r: seq<Time>)
    ensures |r| == |chunks|
  {
    var ks := SortedElems(chunks.Keys);
    SortedElemsMembers(chunks.Keys);
    seq(|ks|, i requires 0 <= i < |ks| => chunks[ks[i]].endTime)
  }

  /** The `i`-th listed start and end times are those of the chunk at the `i`-th offset. */
  lemma ChunkTimesAt(chunks: map<nat, ChunkMetadata>)
    ensures forall i | 0 <= i < |chunks| ::
              && SortedElems(chunks.Keys)[i] in chunks
              && StartTimes(chunks)[i] == chunks[SortedElems(chunks.Keys)[i]].startTime
              && EndTimes(chunks)[i] == chunks[SortedElems(chunks.Keys)[i]].endTime
    ensures forall k | k in chunks :: exists i | 0 <= i < |chunks| :: SortedElems(chunks.Keys)[i] == k
    ensures StrictlyIncreasing(SortedElems(chunks.Keys))
  {
    SortedElemsMembers(chunks.Keys);
    SortedElemsIncreasing(chunks.Keys);
  }

  /** `start_time`: the least chunk start time. */
  function StartTime(meta: BagMetadata): Option<Time> {
    FirstMin(StartTimes(meta.chunks))
  }

  /** `end_time`: the greatest chunk end time. */
  function EndTime(meta: BagMetadata): Option<Time> {
    LastMax(EndTimes(meta.chunks))
  }

  /** No chunk starts before `t`. */
  predicate NoStartBefore(chunks: map<nat, ChunkMetadata>, t: Time) {
    forall k | k in chunks :: Le(t, chunks[k].startTime)
  }

  /** Every chunk at an offset below `k` starts strictly after `t`. */
  predicate LowerOffsetsStartAfter(chunks: map<nat, ChunkMetadata>, k: nat, t: Time) {
    forall k' | k' in chunks && k' < k :: Cmp(chunks[k'].startTime, t) == Greater
  }

  /** No chunk ends after `t`. */
  predicate NoEndAfter(chunks: map<nat, ChunkMetadata>, t: Time) {
    forall k | k in chunks :: Le(chunks[k].endTime, t)
  }

  /** Every chunk at an offset above `k` ends strictly before `t`. */
  predicate HigherOffsetsEndBefore(chunks: map<nat, ChunkMetadata>, k: nat, t: Time) {
    forall k' | k' in chunks && k' > k :: Cmp(chunks[k'].endTime, t) == Less
  }

  /** The first least start in the listing is a least start over the chunks, first by offset. */
  lemma FirstMinOfChunks(chunks: map<nat, ChunkMetadata>, i: nat)
    requires IsFirstMin(StartTimes(chunks), i)
    ensures SortedElems(chunks.Keys)[i] in chunks
    ensures StartTimes(chunks)[i] == chunks[SortedElems(chunks.Keys)[i]].startTime
    ensures NoStartBefore(chunks, StartTimes(chunks)[i])
    ensures LowerOffsetsStartAfter(chunks, SortedElems(chunks.Keys)[i], StartTimes(chunks)[i])
  {
    var ts := StartTimes(chunks);
    var ks := SortedElems(chunks.Keys);
    ChunkTimesAt(chunks);
    forall k' | k' in chunks ensures Le(ts[i], chunks[k'].startTime) {
      var j :| 0 <= j < |ks| && ks[j] == k';
      assert ts[j] == chunks[k'].startTime;
    }
    forall k' | k' in chunks && k' < ks[i] ensures Cmp(chunks[k'].startTime, ts[i]) == Greater {
      var j :| 0 <= j < |ks| && ks[j] == k';
      assert ts[j] == chunks[k'].startTime;
    }
  }

  /** The last greatest end in the listing is a greatest end over the chunks, last by offset. */
  lemma LastMaxOfChunks(chunks: map<nat, ChunkMetadata>, i: nat)
    requires IsLastMax(EndTimes(chunks), i)
    ensures SortedElems(chunks.Keys)[i] in chunks
    ensures EndTimes(chunks)[i] == chunks[SortedElems(chunks.Keys)[i]].endTime
    ensures NoEndAfter(chunks, EndTimes(chunks)[i])
    ensures HigherOffsetsEndBefore(chunks, SortedElems(chunks.Keys)[i], EndTimes(chunks)[i])
  {
    var ts := EndTimes(chunks);
    var ks := SortedElems(chunks.Keys);
    ChunkTimesAt(chunks);
    forall k' | k' in chunks ensures Le(chunks[k'].endTime, ts[i]) {
      var j :| 0 <= j < |ks| && ks[j] == k';
      assert ts[j] == chunks[k'].endTime;
    }
    forall k' | k' in chunks && k' > ks[i] ensures Cmp(chunks[k'].endTime, ts[i]) == Less {
      var j :| 0 <= j < |ks| && ks[j] == k';
      assert ts[j] == chunks[k'].endTime;
    }
  }

  /**
   * The start time is absent exactly when there are no chunks; otherwise it
   * is the start of some chunk, no later than any chunk's start, and strictly
   * earlier than the start of every chunk at a lower offset.
   */
  lemma StartTimeSpec(meta: BagMetadata)
    ensures StartTime(meta).None? <==> |meta.chunks| == 0
    ensures StartTime(meta).Some? ==>
              exists k | k in meta.chunks ::
                && StartTime(meta).value == meta.chunks[k].startTime
                && NoStartBefore(meta.chunks, StartTime(meta).value)
                && LowerOffsetsStartAfter(meta.chunks, k, StartTime(meta).value)
  {
    var ts := StartTimes(meta.chunks);
    if |ts| > 0 {
      FirstMinSpec(ts);
      var i: nat :| IsFirstMin(ts, i) && FirstMin(ts) == Some(ts[i]);
      FirstMinOfChunks(meta.chunks, i);
    }
  }

  /**
   * The end time is absent exactly when there are no chunks; otherwise it is
   * the end of some chunk, no earlier than any chunk's end, and strictly
   * later than the end of every chunk at a higher offset.
   */
  lemma EndTimeSpec(meta: BagMetadata)
    ensures EndTime(meta).None? <==> |meta.chunks| == 0
    ensures EndTime(meta).Some? ==>
              exists k | k in meta.chunks ::
                && EndTime(meta).value == meta.chunks[k].endTime
                && NoEndAfter(meta.chunks, EndTime(meta).value)
                && HigherOffsetsEndBefore(meta.chunks, k, EndTime(meta).value)
  {
    var ts := EndTimes(meta.chunks);
    if |ts| > 0 {
      LastMaxSpec(ts);
      var i: nat :| IsLastMax(ts, i) && LastMax(ts) == Some(ts[i]);
      LastMaxOfChunks(meta.chunks, i);
    }
  }

  /**
   * `duration`: the end time less the start time, each `ZERO` when absent;
   * `None` where the subtraction panics because the end is the earlier.
   */
  function Duration(meta: BagMetadata): Option<nat> {
    var start := match StartTime(meta) case Some(t) => t case None => ZERO;
    var end := match EndTime(meta) case Some(t) => t case None => ZERO;
    Dur(end, start)
  }

  /**
   * A bag without chunks lasts zero; a bag whose chunks each end no earlier
   * than they start has a duration, the nanoseconds from its start to its end.
   */
  lemma DurationSpec(meta: BagMetadata)
    ensures |meta.chunks| == 0 ==> Duration(meta) == Some(0)
    ensures (forall k | k in meta.chunks :: Le(meta.chunks[k].startTime, meta.chunks[k].endTime)) ==>
              && Duration(meta).Some?
              && (|meta.chunks| > 0 ==>
                    Duration(meta).value == Nanos(EndTime(meta).value) - Nanos(StartTime(meta).value))
  {
    StartTimeSpec(meta);
    EndTimeSpec(meta);
    if |meta.chunks| > 0 && forall k | k in meta.chunks :: Le(meta.chunks[k].startTime, meta.chunks[k].endTime) {
      var k :| k in meta.chunks && StartTime(meta).value == meta.chunks[k].startTime;
      assert Le(meta.chunks[k].endTime, EndTime(meta).value);
    }
  }
}
