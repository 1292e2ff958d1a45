/** The running hashes sent along with a media upload. */
module CumulativeDigest {
  import opened Bytes
  import opened Chunking
  import IncrementalHash

  const HIGHWAY_BLOCK_SIZE: nat := 1048576

  lemma MultiplesOfTheBlock(length: nat, size: nat)
    requires size > 0
    ensures (length + size - 1) / size == if length % size == 0 then length / size else length / size + 1
  {
    var q, r := length / size, length % size;
    assert length == q * size + r;
    if r == 0 {
      QuotientIs(length + size - 1, size, q, size - 1);
    } else {
      assert length + size - 1 == (q + 1) * size + (r - 1);
      QuotientIs(length + size - 1, size, q + 1, r - 1);
    }
  }

  /** The hash of the bytes up to the end of block `i`. */
  function EntryOf<D>(hash: seq<byte> -> D, bytes: seq<byte>, size: nat, i: nat): D {
    hash(bytes[..Min((i + 1) * size, |bytes|)])
  }

  /** The loop: one digest for each chunk, of everything up to its end. */
  method RunningDigests<D>(hasher: IncrementalHash.Hasher<D>, bytes: seq<byte>, size: nat) returns (digests: seq<D>)
    requires size > 0 && hasher.fed == []
    modifies hasher
    ensures hasher.fed == bytes
    ensures |digests| == (|bytes| + size - 1) / size
    ensures forall i :: 0 <= i < |digests| ==> digests[i] == EntryOf(hasher.hash, bytes, size, i)
  {
    var chunks := Chunks(bytes, size);
    digests := [];
    for i := 0 to |chunks|
      invariant hasher.fed == Concat(chunks[..i])
      invariant |digests| == i
      invariant forall k :: 0 <= k < i ==> digests[k] == EntryOf(hasher.hash, bytes, size, k)
    {
      hasher.Update(chunks[i]);
      NextChunk(chunks, i);
      ChunksAddUp(bytes, size, i + 1);
      var digest := hasher.Finalize();
      digests := digests + [digest];
    }
    ChunkCount(bytes, size);
    AllChunksAreTheBytes(bytes, size);
    assert chunks[..|chunks|] == chunks;
  }

  lemma NextChunk(chunks: seq<seq<byte>>, i: nat)
    requires i < |chunks|
    ensures Concat(chunks[..i]) + chunks[i] == Concat(chunks[..i + 1])
  {
    ConcatAppend(chunks[..i], chunks[i]);
    assert chunks[..i + 1] == chunks[..i] + [chunks[i]];
  }

  /** One digest more than whole blocks, each of a prefix that ends at a block boundary, the last of everything. */
  method CumulativeSha1<D>(hash: seq<byte> -> D, bytes: seq<byte>) returns (digests: seq<D>)
    ensures bytes == [] ==> digests == []
    ensures bytes != [] ==>
      && |digests| == |bytes| / 1_048_576 + 1
      && (forall i :: 0 <= i < |digests| - 1 ==>
            (i + 1) * 1_048_576 <= |bytes| && digests[i] == hash(bytes[..(i + 1) * 1_048_576]))
      && digests[|digests| - 1] == hash(bytes)
  {
    var hasher := new IncrementalHash.Hasher(hash);
    digests := RunningDigests(hasher, bytes, HIGHWAY_BLOCK_SIZE);
    MultiplesOfTheBlock(|bytes|, HIGHWAY_BLOCK_SIZE);
    if bytes != [] && |bytes| % HIGHWAY_BLOCK_SIZE == 0 {
      var digest := hasher.Finalize();
      LastEntry(bytes, HIGHWAY_BLOCK_SIZE, |digests|);
      digests := digests + [digest];
    } else if bytes != [] {
      LastEntry(bytes, HIGHWAY_BLOCK_SIZE, |digests| - 1);
    }
  }

  lemma LastEntry(bytes: seq<byte>, size: nat, i: nat)
    requires size > 0 && i == |bytes| / size
    ensures bytes[..Min((i + 1) * size, |bytes|)] == bytes
  {
    EuclideanForm(|bytes|, size);
    assert (i + 1) * size == i * size + size;
  }
}
