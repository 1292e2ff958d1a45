/** A hash fed piece by piece. */
module IncrementalHash {
  import opened Bytes

  /** Its result is a function of everything fed, in order. */
  class Hasher<D> {
    const hash: seq<byte> -> D
    var fed: seq<byte>

    constructor (hash: seq<byte> -> D)
      ensures this.hash == hash && fed == []
    {
      this.hash := hash;
      fed := [];
    }

    method Update(bytes: seq<byte>)
      modifies this
      ensures fed == old(fed) + bytes
    {
      fed := fed + bytes;
    }

    /** `finalize`, or `clone().finalize()`: the state is not consumed. */
    method Finalize() returns (digest: D)
      ensures digest == hash(fed)
    {
      digest := hash(fed);
    }
  }
}
