/** The request bodies a query sends to a contacted peer. */
module Rpc {
  import opened NodeIds

  datatype RequestBody =
    | /** Ask for the peer's records at the listed log2 distances. */
      FindNode(distances: seq<nat>)
    | /** Ask for the value under `key`, or records at the listed distances. */
      FindValue(key: NodeId, distances: seq<nat>)
}
