/**
 * One in-flight lookup and the requests it sends.
 *
 * A query looks either for a node or for a value, both named by a 256-bit
 * id. For each contacted peer it asks for a spread of log2 distances centred
 * on the peer's distance from the target, and it is tracked by the query
 * pool under the key of that id.
 */
module Query {
  import opened Wrappers
  import opened NodeIds
  import opened DistanceSpread
  import Keys
  import Rpc

  /** What the query looks for. */
  datatype QueryType =
    | FindNode(nodeId: NodeId)
    | FindValue(key: NodeId)
  {
    /** The id the query looks for, whichever its kind. */
    function Target(): NodeId
    {
      match this
      case FindNode(nodeId) => nodeId
      case FindValue(key) => key
    }
  }

  /** A signed node record; this core carries records without reading them. */
  datatype Enr = Enr(record: seq<byte>)

  /** The state of one query that the request builder and key projection read. */
  datatype QueryInfo = QueryInfo(
    queryType: QueryType,
    untrustedEnrs: seq<Enr>,
    distancesToRequest: nat)
  {
    /** The documented ceiling on the number of distances per request. */
    predicate Valid()
    {
      distancesToRequest <= MAX_SIZE
    }
  }

  /** The log2 distance from the peer's key to the target's key. */
  function PeerDistance(target: NodeId, peer: NodeId): (r: Option<nat>)
    ensures r.None? <==> target == peer
    ensures r.Some? ==> 1 <= r.value <= MAX_DISTANCE
  {
    Keys.FromNodeIdFaithful(peer, target);
    Keys.FromNodeId(peer).Log2Distance(Keys.FromNodeId(target))
  }

  /**
   * The distances to ask `peer` for: nothing when the peer is the target
   * (no log2 distance exists), otherwise the spread of `size` distances
   * around the peer's distance.
   */
  function DistancesFor(target: NodeId, peer: NodeId, size: nat): (r: Option<seq<nat>>)
    requires size <= MAX_SIZE
    ensures r.None? <==> target == peer
    ensures r.Some? ==> |r.value| == size
    ensures r.Some? ==> IsSpread(PeerDistance(target, peer).value, size, r.value)
    ensures r.Some? && size > 0 ==> r.value[0] == PeerDistance(target, peer).value
  {
    match PeerDistance(target, peer)
    case None => None
    case Some(distance) => Some(Spread(distance, size))
  }

  /**
   * `findnode_log2distance` as the source computes it: no list when the peer
   * is the target, otherwise the spread around the peer's distance.
   */
  method FindNodeLog2Distance(target: NodeId, peer: NodeId, size: nat) returns (r: Option<seq<nat>>)
    requires size <= MAX_SIZE
    ensures r == DistancesFor(target, peer, size)
    ensures r.None? <==> target == peer
    ensures r.Some? ==> |r.value| == size
  {
    var dstKey := Keys.FromNodeId(peer);
    var log2 := dstKey.Log2Distance(Keys.FromNodeId(target));
    assert log2 == PeerDistance(target, peer);
    if log2.None? {
      return None;
    }
    var distances := SpreadByLoop(log2.value, size);
    r := Some(distances);
  }

  /**
   * The spread built the way the source builds it: a growing list and an
   * offset that first adds, then (while the list is still short) subtracts,
   * then a cut to `size`, which matters only for `size` 0.
   */
  method SpreadByLoop(distance: nat, size: nat) returns (distances: seq<nat>)
    requires distance <= MAX_DISTANCE && size <= MAX_SIZE
    ensures distances == Spread(distance, size)
  {
    var resultList: seq<nat> := [distance];
    var difference: nat := 1;
    while |resultList| < size
      invariant 1 <= difference <= 128
      invariant resultList <= Walk(distance, difference - 1)
      invariant |resultList| < size ==> resultList == Walk(distance, difference - 1)
      invariant |resultList| < size ==> difference <= |resultList|
      invariant size > 0 ==> |resultList| <= size
      decreases size - |resultList|
    {
      ghost var walked := Walk(distance, difference - 1);
      assert Walk(distance, difference) == walked + Step(distance, difference);
      if distance + difference <= MAX_DISTANCE {
        resultList := resultList + [distance + difference];
      }
      if |resultList| < size {
        if difference <= distance {
          resultList := resultList + [distance - difference];
        }
      }
      difference := difference + 1;
    }
    CutWalkIsSpread(distance, difference - 1, size, resultList);
    distances := resultList[..size];
  }

  /** Cutting a prefix of a walk that is long enough gives the spread. */
  lemma CutWalkIsSpread(distance: nat, n: nat, size: nat, list: seq<nat>)
    requires distance <= MAX_DISTANCE && size <= MAX_SIZE && n <= MAX_DISTANCE
    requires list <= Walk(distance, n) && size <= |list|
    ensures list[..size] == Spread(distance, size)
  {
    WalkPrefix(distance, n, MAX_DISTANCE);
    SpreadFromWalk(distance, MAX_DISTANCE, size);
  }

  /**
   * The request for `peer`: the query's kind decides the shape, a value
   * query carries its key, and the distances are the spread, or `[0]` when
   * the peer is the target itself.
   */
  function RpcRequest(info: QueryInfo, peer: NodeId): (r: Rpc.RequestBody)
    requires info.Valid()
    ensures r.FindNode? <==> info.queryType.FindNode?
    ensures r.FindValue? ==> r.key == info.queryType.key
    ensures info.queryType.Target() == peer ==> r.distances == [0]
    ensures info.queryType.Target() != peer ==>
              IsSpread(PeerDistance(info.queryType.Target(), peer).value, info.distancesToRequest, r.distances)
    ensures forall i :: 0 <= i < |r.distances| ==> r.distances[i] <= MAX_DISTANCE
  {
    match info.queryType
    case FindNode(nodeId) =>
      var distances := DistancesFor(nodeId, peer, info.distancesToRequest).GetOr([0]);
      Rpc.FindNode(distances)
    case FindValue(key) =>
      var distances := DistancesFor(key, peer, info.distancesToRequest).GetOr([0]);
      Rpc.FindValue(key, distances)
  }

  /** The key the query pool tracks the query under: that of its target id, for either kind. */
  function TargetKey(info: QueryInfo): (k: Keys.Key)
    ensures k == Keys.FromNodeId(info.queryType.Target())
  {
    match info.queryType
    case FindNode(nodeId) => Keys.NewRaw(nodeId, nodeId.raw)
    case FindValue(key) => Keys.NewRaw(key, key.raw)
  }

  /** Two queries share a key exactly when they look for the same id, whatever their kinds. */
  lemma TargetKeyInjective(a: QueryInfo, b: QueryInfo)
    ensures TargetKey(a) == TargetKey(b) <==> a.queryType.Target() == b.queryType.Target()
  {
    Keys.FromNodeIdFaithful(a.queryType.Target(), b.queryType.Target());
  }

  /**
   * The request to a peer is centred on the peer's distance from the
   * query's key, the same key the query pool ranks the query by.
   */
  lemma RequestCentredOnTargetKey(info: QueryInfo, peer: NodeId)
    requires info.Valid() && info.distancesToRequest > 0
    requires info.queryType.Target() != peer
    ensures RpcRequest(info, peer).distances[0] == Keys.FromNodeId(peer).Log2Distance(TargetKey(info)).value
  {
  }
}
