/**
 * The chunk bytes of a decompressed bag (frost/src/lib.rs
 * `populate_chunk_bytes` and `DecompressedBag::from_bytes`). The lz4 block
 * decoder is a foreign library; it enters the model as a function parameter.
 */
module Chunks {
  import opened Wrappers
  import opened Errors
  import opened Bytes
  import opened Records
  import Ordered

  /** `none` */
  const NoneCompression: seq<byte> := [0x6E, 0x6F, 0x6E, 0x65]
  /** `lz4` */
  const Lz4Compression: seq<byte> := [0x6C, 0x7A, 0x34]

  /** The bytes an lz4 frame loses at its front and at its back before block decoding. */
  const Lz4FrontTrim: nat := 11
  const Lz4BackTrim: nat := 8

  /**
   * An lz4 block decoder: the compressed block and the expected decompressed
   * size, and `None` where the decoder reports an error.
   */
  type Lz4Decoder = (seq<byte>, nat) -> Option<seq<byte>>

  /**
   * The bytes stored for one chunk: the chunk's on-disk slice, as it is for
   * `none` and decoded for `lz4`; any other compression makes the bag invalid.
   * A slice past the end of the bytes panics.
   */
  function ChunkBytes(meta: ChunkMetadata, file: seq<byte>, lz4: Lz4Decoder): (r: Result<seq<byte>, BagError>)
    ensures meta.dataPos + meta.compressedSize > |file| ==> r == Err(Panicked)
    ensures meta.dataPos + meta.compressedSize <= |file| ==>
              var raw := file[meta.dataPos..meta.dataPos + meta.compressedSize];
              && (meta.compression == NoneCompression ==> r == Ok(raw))
              && (meta.compression == Lz4Compression ==>
                    && (|raw| < Lz4FrontTrim + Lz4BackTrim ==> r == Err(Panicked))
                    && (|raw| >= Lz4FrontTrim + Lz4BackTrim ==>
                          var block := raw[Lz4FrontTrim..|raw| - Lz4BackTrim];
                          && (r.Ok? <==> lz4(block, meta.uncompressedSize).Some?)
                          && (r.Ok? ==> r.value == lz4(block, meta.uncompressedSize).value)
                          && (r.Err? ==> r.error == Decompression)))
              && (meta.compression != NoneCompression && meta.compression != Lz4Compression
                  ==> r == Err(Parse(InvalidBag)))
  {
    var start := meta.dataPos;
    var end := start + meta.compressedSize;
    if end > |file| then Err(Panicked)
    else
      var raw := file[start..end];
      if meta.compression == NoneCompression then Ok(raw)
      else if meta.compression == Lz4Compression then
        if |raw| < Lz4FrontTrim + Lz4BackTrim then Err(Panicked)
        else
          match lz4(raw[Lz4FrontTrim..|raw| - Lz4BackTrim], meta.uncompressedSize)
          case None => Err(Decompression)
          case Some(bytes) => Ok(bytes)
      else Err(Parse(InvalidBag))
  }

  /**
   * `populate_chunk_bytes` over the chunks at `keys`, visited in increasing
   * offset order as a `BTreeMap` iterates them.
   */
  function PopulateFrom(keys: set<nat>, chunks: map<nat, ChunkMetadata>, file: seq<byte>, lz4: Lz4Decoder)
    : Result<map<nat, seq<byte>>, BagError>
    requires keys <= chunks.Keys
    decreases |keys|
  {
    if keys == {} then Ok(map[])
    else
      var k: nat := Ordered.Least(keys);
      var bytes :- ChunkBytes(chunks[k], file, lz4);
      var rest :- PopulateFrom(keys - {k}, chunks, file, lz4);
      Ok(rest[k := bytes])
  }

  /** `populate_chunk_bytes`: the stored bytes of every chunk, by chunk offset. */
  function PopulateChunkBytes(chunks: map<nat, ChunkMetadata>, file: seq<byte>, lz4: Lz4Decoder)
    : Result<map<nat, seq<byte>>, BagError>
  {
    PopulateFrom(chunks.Keys, chunks, file, lz4)
  }

  /**
   * Populating succeeds exactly when every chunk's bytes can be produced; it
   * then holds those bytes under every chunk's offset and nothing else. When it
   * fails, the error is the one of the first failing chunk in offset order.
   */
  lemma {:induction false} PopulateFromSpec(keys: set<nat>, chunks: map<nat, ChunkMetadata>, file: seq<byte>, lz4: Lz4Decoder)
    requires keys <= chunks.Keys
    ensures PopulateFrom(keys, chunks, file, lz4).Ok? <==>
              forall k | k in keys :: ChunkBytes(chunks[k], file, lz4).Ok?
    ensures PopulateFrom(keys, chunks, file, lz4).Ok? ==>
              && PopulateFrom(keys, chunks, file, lz4).value.Keys == keys
              && forall k | k in keys :: ChunkBytes(chunks[k], file, lz4) == Ok(PopulateFrom(keys, chunks, file, lz4).value[k])
    ensures PopulateFrom(keys, chunks, file, lz4).Err? ==>
              exists k | k in keys ::
                && ChunkBytes(chunks[k], file, lz4) == Err(PopulateFrom(keys, chunks, file, lz4).error)
                && forall j | j in keys && j < k :: ChunkBytes(chunks[j], file, lz4).Ok?
    decreases |keys|
  {
    if keys != {} {
      var k: nat := Ordered.Least(keys);
      PopulateFromSpec(keys - {k}, chunks, file, lz4);
      var r := PopulateFrom(keys, chunks, file, lz4);
      if ChunkBytes(chunks[k], file, lz4).Ok? && r.Err? {
        var rest := PopulateFrom(keys - {k}, chunks, file, lz4);
        assert r.error == rest.error;
        var k' :| k' in keys - {k}
                  && ChunkBytes(chunks[k'], file, lz4) == Err(rest.error)
                  && forall j | j in keys - {k} && j < k' :: ChunkBytes(chunks[j], file, lz4).Ok?;
        assert forall j | j in keys && j < k' :: ChunkBytes(chunks[j], file, lz4).Ok?;
      }
    }
  }

  /** A decompressed bag: its metadata and the stored bytes of every chunk. */
  datatype DecompressedBag = DecompressedBag(metadata: BagMetadata, chunkBytes: map<nat, seq<byte>>)

  /** `DecompressedBag::from_bytes`: the metadata, then every chunk's bytes. */
  function DecompressedBagFromBytes(file: seq<byte>, lz4: Lz4Decoder): (r: Result<DecompressedBag, BagError>)
    ensures MetadataFromBytes(file).Err? ==> r == Err(MetadataFromBytes(file).error)
    ensures r.Ok? ==> && MetadataFromBytes(file) == Ok(r.value.metadata)
                      && PopulateChunkBytes(r.value.metadata.chunks, file, lz4) == Ok(r.value.chunkBytes)
    ensures r.Ok? <==> MetadataFromBytes(file).Ok?
                       && PopulateChunkBytes(MetadataFromBytes(file).value.chunks, file, lz4).Ok?
    ensures MetadataFromBytes(file).Ok? && PopulateChunkBytes(MetadataFromBytes(file).value.chunks, file, lz4).Err?
            ==> r == Err(PopulateChunkBytes(MetadataFromBytes(file).value.chunks, file, lz4).error)
  {
    var metadata :- MetadataFromBytes(file);
    var chunkBytes :- PopulateChunkBytes(metadata.chunks, file, lz4);
    Ok(DecompressedBag(metadata, chunkBytes))
  }

  /**
   * Of a decompressed bag: there are bytes for exactly the chunks of its
   * metadata, and an uncompressed chunk's bytes are its slice of the file.
   */
  lemma DecompressedBagChunks(file: seq<byte>, lz4: Lz4Decoder)
    ensures DecompressedBagFromBytes(file, lz4).Ok? ==>
              var bag := DecompressedBagFromBytes(file, lz4).value;
              && bag.chunkBytes.Keys == bag.metadata.chunks.Keys
              && forall k | k in bag.metadata.chunks && bag.metadata.chunks[k].compression == NoneCompression ::
                   var meta := bag.metadata.chunks[k];
                   && meta.dataPos + meta.compressedSize <= |file|
                   && bag.chunkBytes[k] == file[meta.dataPos..meta.dataPos + meta.compressedSize]
  {
    var r := DecompressedBagFromBytes(file, lz4);
    if r.Ok? {
      PopulateFromSpec(r.value.metadata.chunks.Keys, r.value.metadata.chunks, file, lz4);
    }
  }
}
