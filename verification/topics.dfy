/**
 * The topic and type listings of `BagMetadata` (frost/src/lib.rs `topics`,
 * `types`, `topics_and_types`).
 */
module Topics {
  import opened Bytes
  import opened Headers
  import opened Records
  import opened Ordered
  import opened Summary

  /** The topics of the connections, in ascending connection id order. */
  function TopicSeq(conns: map<u32, ConnectionData>): (r: seq<seq<byte>>)
    ensures |r| == |conns|
  {
    var ids := KeysInOrder(conns);
    KeysInOrderSpec(conns);
    seq(|ids|, i requires 0 <= i < |ids| => conns[ids[i]].topic)
  }

  /** `topics`: each topic once, in the order its first connection is met. */
  function Topics(meta: BagMetadata): seq<seq<byte>> {
    Unique(TopicSeq(meta.connections))
  }

  /** `types`. */
  function Types(meta: BagMetadata): set<seq<byte>> {
    set id | id in meta.connections :: meta.connections[id].dataType
  }

  /** `topics_and_types`. */
  function TopicsAndTypes(meta: BagMetadata): set<(seq<byte>, seq<byte>)> {
    set id | id in meta.connections :: (meta.connections[id].topic, meta.connections[id].dataType)
  }

  /** The topic listed at `p` is the topic of the connection with the `p`-th smallest id. */
  lemma TopicSeqAt(conns: map<u32, ConnectionData>)
    ensures forall p | 0 <= p < |TopicSeq(conns)| ::
              && KeysInOrder(conns)[p] in conns
              && TopicSeq(conns)[p] == conns[KeysInOrder(conns)[p]].topic
  {
    KeysInOrderSpec(conns);
  }

  /** Some connection of topic `a` has a smaller id than every connection of topic `b`. */
  predicate TopicMetEarlier(conns: map<u32, ConnectionData>, a: seq<byte>, b: seq<byte>) {
    exists id | id in conns && conns[id].topic == a ::
      forall id' | id' in conns && conns[id'].topic == b :: id < id'
  }

  lemma SeenBeforeMetEarlier(conns: map<u32, ConnectionData>, a: seq<byte>, b: seq<byte>)
    requires SeenBefore(TopicSeq(conns), a, b)
    ensures TopicMetEarlier(conns, a, b)
  {
    var ts := TopicSeq(conns);
    var ids := KeysInOrder(conns);
    TopicSeqAt(conns);
    KeysInOrderSpec(conns);
    var p :| 0 <= p < |ts| && ts[p] == a && forall q | 0 <= q <= p :: ts[q] != b;
    forall id' | id' in conns && conns[id'].topic == b ensures ids[p] < id' {
      assert id' in ids;
      var q :| 0 <= q < |ts| && ids[q] == id';
      assert ts[q] == b;
    }
  }

  /**
   * `topics` lists every topic of the bag once and nothing else, a topic
   * ahead of another exactly when one of its connections has a smaller id
   * than all of the other's.
   */
  lemma TopicsSpec(meta: BagMetadata)
    ensures forall i, j | 0 <= i < j < |Topics(meta)| :: Topics(meta)[i] != Topics(meta)[j]
    ensures forall t | t in Topics(meta) :: exists id | id in meta.connections :: meta.connections[id].topic == t
    ensures forall id | id in meta.connections :: meta.connections[id].topic in Topics(meta)
    ensures forall i, j | 0 <= i < j < |Topics(meta)| :: TopicMetEarlier(meta.connections, Topics(meta)[i], Topics(meta)[j])
  {
    var conns := meta.connections;
    var ts := TopicSeq(conns);
    var ids := KeysInOrder(conns);
    UniqueDistinct(ts);
    UniqueMembers(ts);
    UniqueFirstSeen(ts);
    TopicSeqAt(conns);
    forall t | t in Topics(meta) ensures exists id | id in conns :: conns[id].topic == t {
      var p :| 0 <= p < |ts| && ts[p] == t;
      assert conns[ids[p]].topic == t;
    }
    KeysInOrderSpec(conns);
    forall id | id in conns ensures conns[id].topic in Topics(meta) {
      assert id in ids;
      var p :| 0 <= p < |ts| && ids[p] == id;
      assert ts[p] in ts;
    }
    forall i, j | 0 <= i < j < |Topics(meta)| ensures TopicMetEarlier(conns, Topics(meta)[i], Topics(meta)[j]) {
      SeenBeforeMetEarlier(conns, Topics(meta)[i], Topics(meta)[j]);
    }
  }

  /** The types are the keys of `type_to_connection_ids`. */
  lemma TypesSpec(meta: BagMetadata)
    requires WellKeyed(meta.connections)
    ensures Types(meta) == ConnectionIdsBy(ByType, meta.connections).Keys
  {
    ConnectionIdsBySpec(ByType, meta.connections);
  }

  /**
   * A topic and a type are paired exactly when the connection ids of the
   * topic and of the type have one in common.
   */
  lemma TopicsAndTypesSpec(meta: BagMetadata, t: seq<byte>, ty: seq<byte>)
    requires WellKeyed(meta.connections)
    ensures (t, ty) in TopicsAndTypes(meta) <==>
              var byTopic := ConnectionIdsBy(ByTopic, meta.connections);
              var byType := ConnectionIdsBy(ByType, meta.connections);
              && t in byTopic && ty in byType
              && exists id | id in byTopic[t] :: id in byType[ty]
  {
    var conns := meta.connections;
    var byTopic := ConnectionIdsBy(ByTopic, conns);
    var byType := ConnectionIdsBy(ByType, conns);
    if (t, ty) in TopicsAndTypes(meta) {
      var id :| id in conns && (conns[id].topic, conns[id].dataType) == (t, ty);
      ConnectionIdsByMember(ByTopic, conns, t, id);
      ConnectionIdsByMember(ByType, conns, ty, id);
    }
    if t in byTopic && ty in byType && exists id | id in byTopic[t] :: id in byType[ty] {
      var id :| id in byTopic[t] && id in byType[ty];
      ConnectionIdsByMember(ByTopic, conns, t, id);
      ConnectionIdsByMember(ByType, conns, ty, id);
      assert (conns[id].topic, conns[id].dataType) == (t, ty);
    }
  }
}
