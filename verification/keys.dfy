/**
 * Points of the DHT key space. A key pairs a preimage with the 32-byte hash
 * the XOR metric is taken over; for node ids the hash is the id's raw bytes.
 */
module Keys {
  import opened Wrappers
  import opened NodeIds

  datatype Key = Key(preimage: NodeId, hash: Raw) {

    /** The log2 distance between the hashes of two keys. */
    function Log2Distance(other: Key): (r: Option<nat>)
      ensures r.None? <==> hash == other.hash
      ensures r.Some? ==> 1 <= r.value <= ID_BITS
    {
      NodeIds.Log2Distance(hash, other.hash)
    }
  }

  /** A key whose hash is supplied by the caller rather than computed. */
  function NewRaw(preimage: NodeId, hash: Raw): Key
  {
    Key(preimage, hash)
  }

  /** The key of a node id: the id itself, hashed as its own raw bytes. */
  function FromNodeId(id: NodeId): Key
  {
    NewRaw(id, id.raw)
  }

  /**
   * Distinct ids get distinct keys, and the metric between two id keys is
   * the metric between the ids' raw bytes, absent exactly for equal ids.
   */
  lemma FromNodeIdFaithful(a: NodeId, b: NodeId)
    ensures FromNodeId(a) == FromNodeId(b) <==> a == b
    ensures FromNodeId(a).Log2Distance(FromNodeId(b)) == NodeIds.Log2Distance(a.raw, b.raw)
    ensures FromNodeId(a).Log2Distance(FromNodeId(b)).None? <==> a == b
  {
  }
}
