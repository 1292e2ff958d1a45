/** `slice::chunks`: consecutive pieces of one size, the last one possibly shorter. */
module Chunking {
  import opened Bytes

  function Chunks(bytes: seq<byte>, size: nat): (chunks: seq<seq<byte>>)
    requires size > 0
  {
    if bytes == [] then []
    else if |bytes| <= size then [bytes]
    else [bytes[..size]] + Chunks(bytes[size..], size)
  }

  function Concat(pieces: seq<seq<byte>>): seq<byte> {
    if pieces == [] then [] else pieces[0] + Concat(pieces[1..])
  }

  /** Every chunk sits at its number times the size, in bounds. */
  lemma {:induction false} ChunkAt(bytes: seq<byte>, size: nat, i: nat)
    requires size > 0 && i < |Chunks(bytes, size)|
    ensures 0 <= i * size < |bytes| && i * size <= Min((i + 1) * size, |bytes|)
    ensures Chunks(bytes, size)[i] == bytes[i * size..Min((i + 1) * size, |bytes|)]
    decreases i
  {
    if i > 0 {
      var rest := bytes[size..];
      ChunkAt(rest, size, i - 1);
      NextMultiple(i - 1, size);
      NextMultiple(i, size);
      SliceOfRest(bytes, size, (i - 1) * size, Min(i * size, |rest|));
    } else {
      assert bytes[..|bytes|] == bytes;
    }
  }

  lemma NextMultiple(i: nat, size: nat)
    ensures (i + 1) * size == i * size + size
  {
  }

  lemma SliceOfRest(bytes: seq<byte>, size: nat, low: nat, high: nat)
    requires size <= |bytes| && low <= high <= |bytes| - size
    ensures bytes[size..][low..high] == bytes[size + low..size + high]
  {
  }

  /** There are as many chunks as it takes to cover the bytes: the length divided by the size, rounded up. */
  lemma {:induction false} ChunkCount(bytes: seq<byte>, size: nat)
    requires size > 0
    ensures |Chunks(bytes, size)| == (|bytes| + size - 1) / size
    decreases |bytes|
  {
    if |bytes| > size {
      ChunkCount(bytes[size..], size);
      DivideMore(|bytes| - size + size - 1, size);
    } else if bytes != [] {
      DivideMore(|bytes| - 1, size);
      SmallQuotient(|bytes| - 1, size);
    } else {
      SmallQuotient(size - 1, size);
    }
  }

  lemma DivideMore(n: nat, size: nat)
    requires size > 0
    ensures (n + size) / size == n / size + 1
  {
    var q, r := n / size, n % size;
    assert n + size == (q + 1) * size + r;
    QuotientIs(n + size, size, q + 1, r);
  }

  lemma QuotientIs(n: nat, size: nat, q: nat, r: nat)
    requires size > 0 && n == q * size + r && r < size
    ensures n / size == q && n % size == r
  {
    var p := n / size;
    EuclideanForm(n, size);
    if p > q {
      Scale(p, q, size);
    } else if p < q {
      Scale(q, p, size);
    }
  }

  lemma EuclideanForm(n: nat, size: nat)
    requires size > 0
    ensures n == n / size * size + n % size
  {
  }

  lemma Scale(a: nat, b: nat, size: nat)
    requires a > b
    ensures a * size >= b * size + size
  {
    var d := a - b - 1;
    assert a * size == (b + 1 + d) * size == b * size + size + d * size;
  }

  lemma SmallQuotient(n: nat, size: nat)
    requires n < size
    ensures n / size == 0
  {
    QuotientIs(n, size, 0, n);
  }

  lemma {:induction false} ConcatAppend(pieces: seq<seq<byte>>, piece: seq<byte>)
    ensures Concat(pieces + [piece]) == Concat(pieces) + piece
  {
    if pieces == [] {
      assert [piece][1..] == [];
      assert Concat([piece]) == piece + [];
    } else {
      assert (pieces + [piece])[1..] == pieces[1..] + [piece];
      ConcatAppend(pieces[1..], piece);
    }
  }

  /** The first `i` chunks together are a prefix of the bytes, and all of them are the bytes. */
  lemma {:induction false} ChunksAddUp(bytes: seq<byte>, size: nat, i: nat)
    requires size > 0 && i <= |Chunks(bytes, size)|
    ensures Concat(Chunks(bytes, size)[..i]) == bytes[..Min(i * size, |bytes|)]
  {
    var chunks := Chunks(bytes, size);
    if i > 0 {
      ChunksAddUp(bytes, size, i - 1);
      ChunkAt(bytes, size, i - 1);
      ConcatAppend(chunks[..i - 1], chunks[i - 1]);
      assert chunks[..i] == chunks[..i - 1] + [chunks[i - 1]];
      assert Min((i - 1) * size, |bytes|) == (i - 1) * size;
    }
  }

  lemma AllChunksAreTheBytes(bytes: seq<byte>, size: nat)
    requires size > 0
    ensures Concat(Chunks(bytes, size)) == bytes
    ensures |Chunks(bytes, size)| * size >= |bytes|
  {
    var chunks := Chunks(bytes, size);
    var n := |bytes| + size - 1;
    ChunksAddUp(bytes, size, |chunks|);
    ChunkCount(bytes, size);
    assert n == n / size * size + n % size;
    assert chunks[..|chunks|] == chunks;
  }
}
