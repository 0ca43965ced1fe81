/**
 * The concrete scenarios of src/service/query_info.rs: a peer that differs
 * from the all-zero target in one byte, and the spreads requested from it.
 */
module QueryScenarios {
  import opened Wrappers
  import opened NodeIds
  import opened DistanceSpread
  import opened Query
  import Rpc

  /** The all-zero id. */
  function ZeroId(): NodeId
  {
    NodeId(seq(RAW_LENGTH, _ => 0))
  }

  /** The id that is zero except for `value` at byte `index`. */
  function IdWithByte(index: nat, value: byte): NodeId
    requires index < RAW_LENGTH
  {
    NodeId(seq(RAW_LENGTH, i => if i == index then value else 0))
  }

  /** A peer differing from the zero id only in byte `index` is at 8 * (31 - index) + bit length of that byte. */
  lemma {:induction false} SingleByteDistance(index: nat, value: byte)
    requires index < RAW_LENGTH && value != 0
    ensures PeerDistance(ZeroId(), IdWithByte(index, value)) == Some(8 * (31 - index) + BitLength(value))
  {
    var peer, target := IdWithByte(index, value).raw, ZeroId().raw;
    XorWithZero(peer, target);
    LeadingZerosAt(peer, index);
    assert LeadingZeros(Xor(peer, target)) == 8 * index + 8 - BitLength(value);
  }

  lemma XorWithZero(a: Raw, z: Raw)
    requires forall i :: 0 <= i < RAW_LENGTH ==> z[i] == 0
    ensures Xor(a, z) == a
  {
    forall i | 0 <= i < RAW_LENGTH
      ensures Xor(a, z)[i] == a[i]
    {
      BitXorZero(a[i]);
    }
  }

  /** The request distances for such a peer are the spread around that distance. */
  lemma {:induction false} SingleByteSpread(index: nat, value: byte, size: nat, d: nat)
    requires index < RAW_LENGTH && value != 0 && size <= MAX_SIZE
    requires d == 8 * (31 - index) + BitLength(value)
    ensures d <= MAX_DISTANCE
    ensures DistancesFor(ZeroId(), IdWithByte(index, value), size) == Some(Spread(d, size))
  {
    SingleByteDistance(index, value);
  }

  /**
   * Nine distances around 169, alternating upward first.
   * Target and peer are parameters so the solver does not unfold the literal computation.
   */
  lemma SpreadAround169(target: NodeId, peer: NodeId)
    requires target == ZeroId() && peer == IdWithByte(10, 1)
    ensures DistancesFor(target, peer, 9) == Some([169, 170, 168, 171, 167, 172, 166, 173, 165])
  {
    assert BitLength(1) == 1;
    SingleByteSpread(10, 1, 9, 169);
    Walk169();
    SpreadFromWalk(169, 4, 9);
  }

  lemma Walk169()
    ensures Walk(169, 4) == [169, 170, 168, 171, 167, 172, 166, 173, 165]
  {
  }

  /**
   * Near 0 the subtracting side runs out and the adding side supplies the rest.
   * Target and peer are parameters so the solver does not unfold the literal computation.
   */
  lemma SpreadNearZero(target: NodeId, peer: NodeId)
    requires target == ZeroId() && peer == IdWithByte(31, 8)
    ensures DistancesFor(target, peer, 11) == Some([4, 5, 3, 6, 2, 7, 1, 8, 0, 9, 10])
  {
    assert BitLength(8) == 4;
    SingleByteSpread(31, 8, 11, 4);
    Walk4();
    SpreadFromWalk(4, 6, 11);
  }

  lemma Walk4()
    ensures Walk(4, 6) == [4, 5, 3, 6, 2, 7, 1, 8, 0, 9, 10]
  {
  }

  /**
   * Near 256 the adding side runs out and the subtracting side supplies the rest.
   * Target and peer are parameters so the solver does not unfold the literal computation.
   */
  lemma SpreadNear256(target: NodeId, peer: NodeId)
    requires target == ZeroId() && peer == IdWithByte(0, 8)
    ensures DistancesFor(target, peer, 11) == Some([252, 253, 251, 254, 250, 255, 249, 256, 248, 247, 246])
  {
    assert BitLength(8) == 4;
    SingleByteSpread(0, 8, 11, 252);
    Walk252();
    SpreadFromWalk(252, 6, 11);
  }

  lemma Walk252()
    ensures Walk(252, 6) == [252, 253, 251, 254, 250, 255, 249, 256, 248, 247, 246]
  {
  }

  /** A peer that is the target itself is asked for distance 0 alone. */
  lemma SelfRequestFallsBack(id: NodeId, size: nat, enrs: seq<Enr>)
    requires size <= MAX_SIZE
    ensures RpcRequest(QueryInfo(FindNode(id), enrs, size), id) == Rpc.FindNode([0])
    ensures RpcRequest(QueryInfo(FindValue(id), enrs, size), id) == Rpc.FindValue(id, [0])
  {
  }
}
