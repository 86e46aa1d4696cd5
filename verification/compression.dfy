/**
 * `BagMetadata::compression_info` (frost/src/lib.rs): per compression name, the
 * number of chunks and their compressed and uncompressed sizes, largest
 * compressed total first.
 */
module Compression {
  import opened Bytes
  import opened Records
  import opened Ordered
  import Summary

  /** One line of the compression statistics. */
  datatype CompressionInfo = CompressionInfo(
    name: seq<byte>,
    totalCompressed: nat,
    totalUncompressed: nat,
    chunkCount: nat)

  function NameOf(e: CompressionInfo): seq<byte> { e.name }
  function ChunkCountOf(e: CompressionInfo): nat { e.chunkCount }

  /** The sort key of `b.total_compressed.cmp(&a.total_compressed)`: larger totals first. */
  function Descending(e: CompressionInfo): int { 0 - e.totalCompressed }

  function CompressedSize(c: ChunkMetadata): nat { c.compressedSize }
  function UncompressedSize(c: ChunkMetadata): nat { c.uncompressedSize }

  // ------------------------------------------------------ reference totals

  /** The chunks, in order, whose compression is `n`. */
  function ChunksNamed(cs: seq<ChunkMetadata>, n: seq<byte>): seq<ChunkMetadata> {
    if cs == [] then []
    else
      var c := cs[|cs| - 1];
      ChunksNamed(cs[..|cs| - 1], n) + (if c.compression == n then [c] else [])
  }

  /** What the statistics should say about the name `n`: totals over the chunks compressed with it. */
  function Aggregate(cs: seq<ChunkMetadata>, n: seq<byte>): CompressionInfo {
    var named := ChunksNamed(cs, n);
    CompressionInfo(n, SumBy(named, CompressedSize), SumBy(named, UncompressedSize), |named|)
  }

  /** The compression names the chunks use. */
  function Compressions(cs: seq<ChunkMetadata>): set<seq<byte>> {
    set c | c in cs :: c.compression
  }

  function Names(infos: seq<CompressionInfo>): set<seq<byte>> {
    set e | e in infos :: e.name
  }

  lemma AggregateStep(cs: seq<ChunkMetadata>, c: ChunkMetadata, n: seq<byte>)
    ensures Aggregate(cs + [c], n) == (if c.compression == n then Count(Aggregate(cs, n), c) else Aggregate(cs, n))
  {
    assert (cs + [c])[..|cs|] == cs;
    var named := ChunksNamed(cs, n);
    if c.compression == n {
      SumByAppend(named, c, CompressedSize);
      SumByAppend(named, c, UncompressedSize);
    } else {
      assert named + [] == named;
    }
  }

  lemma {:induction false} AggregateAbsent(cs: seq<ChunkMetadata>, n: seq<byte>)
    requires n !in Compressions(cs)
    ensures Aggregate(cs, n) == CompressionInfo(n, 0, 0, 0)
    decreases |cs|
  {
    if cs != [] {
      var init := cs[..|cs| - 1];
      assert cs == init + [cs[|cs| - 1]];
      assert n !in Compressions(init) by {
        forall c | c in init ensures c.compression != n {
          assert c in cs;
        }
      }
      AggregateAbsent(init, n);
      AggregateStep(init, cs[|cs| - 1], n);
    }
  }

  // ------------------------------------------------------------- the tally

  /** One more chunk on an entry. */
  function Count(e: CompressionInfo, c: ChunkMetadata): CompressionInfo {
    e.(totalCompressed := e.totalCompressed + c.compressedSize,
       totalUncompressed := e.totalUncompressed + c.uncompressedSize,
       chunkCount := e.chunkCount + 1)
  }

  /** `acc.entry(compression).or_insert_with(..)` followed by the three increments. */
  function Add(infos: seq<CompressionInfo>, c: ChunkMetadata): seq<CompressionInfo> {
    if infos == [] then [Count(CompressionInfo(c.compression, 0, 0, 0), c)]
    else if infos[0].name == c.compression then [Count(infos[0], c)] + infos[1..]
    else [infos[0]] + Add(infos[1..], c)
  }

  /** The loop over the chunks, entries in order of first use. */
  function Tally(cs: seq<ChunkMetadata>): seq<CompressionInfo> {
    if cs == [] then []
    else Add(Tally(cs[..|cs| - 1]), cs[|cs| - 1])
  }

  /** Adding a chunk bumps the entry of its name in place, or appends a new one. */
  lemma {:induction false} AddShape(infos: seq<CompressionInfo>, c: ChunkMetadata)
    ensures c.compression in Names(infos) ==>
              && |Add(infos, c)| == |infos|
              && forall i | 0 <= i < |infos| :: Add(infos, c)[i].name == infos[i].name
    ensures c.compression !in Names(infos) ==>
              Add(infos, c) == infos + [Count(CompressionInfo(c.compression, 0, 0, 0), c)]
    decreases |infos|
  {
    if infos != [] && infos[0].name != c.compression {
      var tail := infos[1..];
      AddShape(tail, c);
      assert infos == [infos[0]] + tail;
      assert c.compression in Names(infos) <==> c.compression in Names(tail);
    }
  }

  /** Every entry of the new list is right about the chunks seen so far. */
  lemma {:induction false} AddFaithful(infos: seq<CompressionInfo>, c: ChunkMetadata, cs: seq<ChunkMetadata>)
    requires DistinctBy(infos, NameOf)
    requires forall e | e in infos :: e == Aggregate(cs, e.name)
    requires c.compression !in Names(infos) ==> Aggregate(cs, c.compression) == CompressionInfo(c.compression, 0, 0, 0)
    ensures forall e | e in Add(infos, c) :: e == Aggregate(cs + [c], e.name)
    decreases |infos|
  {
    var n := c.compression;
    if infos == [] {
      AggregateStep(cs, c, n);
    } else {
      var tail := infos[1..];
      AggregateStep(cs, c, infos[0].name);
      if infos[0].name == n {
        forall e | e in tail ensures e == Aggregate(cs + [c], e.name) {
          var j :| 0 <= j < |tail| && tail[j] == e;
          assert NameOf(infos[0]) != NameOf(infos[j + 1]);
          AggregateStep(cs, c, e.name);
        }
      } else {
        assert n !in Names(tail) ==> n !in Names(infos);
        AddFaithful(tail, c, cs);
      }
    }
  }

  lemma {:induction false} AddCount(infos: seq<CompressionInfo>, c: ChunkMetadata)
    ensures SumBy(Add(infos, c), ChunkCountOf) == SumBy(infos, ChunkCountOf) + 1
    decreases |infos|
  {
    if infos != [] && infos[0].name != c.compression {
      AddCount(infos[1..], c);
    }
  }

  /** The tally names exactly the compressions of the chunks. */
  lemma {:induction false} TallyNames(cs: seq<ChunkMetadata>)
    ensures Names(Tally(cs)) == Compressions(cs)
    decreases |cs|
  {
    if cs != [] {
      var init := cs[..|cs| - 1];
      var c := cs[|cs| - 1];
      assert cs == init + [c];
      TallyNames(init);
      var t := Tally(init);
      AddShape(t, c);
      assert Compressions(cs) == Compressions(init) + {c.compression};
      if c.compression in Names(t) {
        forall x | x in Names(Add(t, c)) ensures x in Names(t) {
          var i :| 0 <= i < |Add(t, c)| && Add(t, c)[i].name == x;
          assert t[i].name == x;
        }
        forall x | x in Names(t) ensures x in Names(Add(t, c)) {
          var i :| 0 <= i < |t| && t[i].name == x;
          assert Add(t, c)[i].name == x;
        }
      }
    }
  }

  /** The tally names no compression twice. */
  lemma {:induction false} TallyDistinct(cs: seq<ChunkMetadata>)
    ensures DistinctBy(Tally(cs), NameOf)
    decreases |cs|
  {
    if cs != [] {
      var init := cs[..|cs| - 1];
      var c := cs[|cs| - 1];
      TallyDistinct(init);
      var t := Tally(init);
      AddShape(t, c);
      if c.compression !in Names(t) {
        forall i | 0 <= i < |t| ensures NameOf(t[i]) != c.compression {
          assert t[i] in t;
        }
      } else {
        forall i, j | 0 <= i < j < |t| ensures NameOf(Add(t, c)[i]) != NameOf(Add(t, c)[j]) {
          assert NameOf(t[i]) != NameOf(t[j]);
        }
      }
    }
  }

  /** Every entry of the tally holds the totals of its name. */
  lemma {:induction false} TallyFaithful(cs: seq<ChunkMetadata>)
    ensures forall e | e in Tally(cs) :: e == Aggregate(cs, e.name)
    decreases |cs|
  {
    if cs != [] {
      var init := cs[..|cs| - 1];
      var c := cs[|cs| - 1];
      assert cs == init + [c];
      TallyFaithful(init);
      TallyNames(init);
      TallyDistinct(init);
      var t := Tally(init);
      if c.compression !in Names(t) {
        AggregateAbsent(init, c.compression);
      }
      AddFaithful(t, c, init);
    }
  }

  /** The chunk counts of the tally add up to the number of chunks. */
  lemma {:induction false} TallyCount(cs: seq<ChunkMetadata>)
    ensures SumBy(Tally(cs), ChunkCountOf) == |cs|
    decreases |cs|
  {
    if cs != [] {
      TallyCount(cs[..|cs| - 1]);
      AddCount(Tally(cs[..|cs| - 1]), cs[|cs| - 1]);
    }
  }

  /** `compression_info`: the tally, largest compressed total first. */
  function CompressionInfos(meta: BagMetadata): seq<CompressionInfo> {
    SortBy(Tally(Summary.ChunksInOrder(meta.chunks)), Descending)
  }

  /** The compression names of the chunks of a bag. */
  lemma CompressionsOfChunks(chunks: map<nat, ChunkMetadata>)
    ensures Compressions(Summary.ChunksInOrder(chunks)) == set k | k in chunks :: chunks[k].compression
  {
    var cs := Summary.ChunksInOrder(chunks);
    Summary.ChunksInOrderSpec(chunks);
    var ks := SortedElems(chunks.Keys);
    forall n | n in Compressions(cs) ensures exists k | k in chunks :: chunks[k].compression == n {
      var i :| 0 <= i < |cs| && cs[i].compression == n;
      assert chunks[ks[i]].compression == n;
    }
    forall k | k in chunks ensures chunks[k].compression in Compressions(cs) {
      var i :| 0 <= i < |cs| && ks[i] == k;
      assert cs[i] in cs;
    }
  }

  /**
   * One entry per compression name used by some chunk and no other; each
   * entry holds the totals over the chunks with that name; the chunk counts
   * add up to the number of chunks; and the compressed totals never increase
   * along the list.
   */
  lemma CompressionInfosSpec(meta: BagMetadata)
    ensures forall i, j | 0 <= i < j < |CompressionInfos(meta)| ::
              CompressionInfos(meta)[i].name != CompressionInfos(meta)[j].name
    ensures Names(CompressionInfos(meta)) == set k | k in meta.chunks :: meta.chunks[k].compression
    ensures forall e | e in CompressionInfos(meta) :: e == Aggregate(Summary.ChunksInOrder(meta.chunks), e.name)
    ensures SumBy(CompressionInfos(meta), ChunkCountOf) == |meta.chunks|
    ensures forall i, j | 0 <= i < j < |CompressionInfos(meta)| ::
              CompressionInfos(meta)[i].totalCompressed >= CompressionInfos(meta)[j].totalCompressed
  {
    var cs := Summary.ChunksInOrder(meta.chunks);
    var t := Tally(cs);
    var r := CompressionInfos(meta);
    TallyNames(cs);
    TallyDistinct(cs);
    TallyFaithful(cs);
    TallyCount(cs);
    SortByDistinct(t, Descending, NameOf);
    SortBySorted(t, Descending);
    SortBySum(t, Descending, ChunkCountOf);
    CompressionsOfChunks(meta.chunks);
    assert Names(r) == Names(t);
    forall i, j | 0 <= i < j < |r| ensures r[i].name != r[j].name {
      assert NameOf(r[i]) != NameOf(r[j]);
    }
    forall i, j | 0 <= i < j < |r| ensures r[i].totalCompressed >= r[j].totalCompressed {
      assert Descending(r[i]) <= Descending(r[j]);
    }
  }
}
