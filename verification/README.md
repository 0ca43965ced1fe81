# Query targeting of a Kademlia lookup (discv5 `query_info`)

A Dafny model of the query-targeting core of the discv5 node-discovery
service. A query looks either for a node (`FindNode`) or for a value
(`FindValue`), and both kinds are named by a 256-bit id. For every peer it
contacts, the query builds a request that asks for a *spread* of XOR log2
distances. The spread is centred on the peer's own distance from the target:
`d, d+1, d-1, d+2, d-2, …`. A candidate outside `[0, 256]` is skipped, and the
list is cut to the configured count. The query pool tracks the query under
the key of its target id.

Modules:

- `NodeIds` (`node_id.dfy`): 32-byte ids, bitwise XOR, leading zeros, and the
  log2 distance `256 - leading_zeros(a XOR b)`. The distance is absent exactly
  for equal ids. Reading the XOR as a 256-bit integer, the distance is
  `floor(log2(x)) + 1`.
- `Keys` (`keys.dfy`): keys (a preimage plus the 32-byte hash the metric is
  taken over) and the key of a node id.
- `DistanceSpread` (`spread.dfy`): the outward walk, the spread as its
  prefix, and an independent characterisation `IsSpread`. `IsSpread` says the
  spread is the `size` in-range distances closest to `d`. Closeness is the
  alternation order, where `d + k` comes just before `d - k`. The spread lists
  them in that order.
- `Rpc` (`rpc.dfy`): the two request bodies.
- `Query` (`query_info.dfy`): `QueryType` and `QueryInfo`. It also holds the
  loop exactly as the source writes it, proved equal to the functional
  spread, plus the request builder and the key projection.
- `QueryScenarios` (`query_info_tests.dfy`): the three vectors from the
  source's unit tests, and the `[0]` fallback.

Distances are `u64` and the count is `usize` in the source. Every value stays
at or below 256 and the count at or below 127, so neither can overflow.
Both are modelled as `nat`.

## Model

| member | source | states |
|---|---|---|
| NodeIds.Log2Distance | src/service/query_info.rs:83-84 | the distance from the peer to the target is absent exactly when the two ids are equal, and otherwise lies in [1, 256] |
| NodeIds.Log2DistanceIsTopBit | src/service/query_info.rs:84 | the log2 distance equals the bit length of the XOR read as a 256-bit unsigned integer x, i.e. the k with 2^(k-1) <= x < 2^k; it is absent exactly when x is 0 |
| NodeIds.Log2DistanceSymmetric | src/service/query_info.rs:83-84 | measuring from the peer's key to the target's key gives the same distance as measuring the other way |
| Keys.FromNodeIdFaithful | src/service/query_info.rs:83-84 | converting ids to keys is injective, and the metric between the two keys is the metric between the ids' raw bytes |
| Keys.Key.Log2Distance | src/service/query_info.rs:84 | absent exactly when the two key hashes are equal, otherwise in [1, 256] |
| Query.PeerDistance | src/service/query_info.rs:83-84 | the distance the spread is centred on is absent exactly when peer equals target, and otherwise lies in [1, 256] |
| DistanceSpread.Spread | src/service/query_info.rs:86-99 | the spread has exactly `size` entries, each in [0, 256]. Its ranks strictly increase (d, then d+k before d-k). Every in-range distance left out ranks after all listed ones. It starts with d when size >= 1 |
| DistanceSpread.SpreadUnique | src/service/query_info.rs:87-98 | any list meeting that characterisation is the spread, so it determines the output completely |
| DistanceSpread.SpreadDistinct | src/service/query_info.rs:87-98 | a spread never lists a distance twice |
| DistanceSpread.SpreadGrows | src/service/query_info.rs:88-99 | asking for more distances only appends: the smaller spread is a prefix of the larger one |
| DistanceSpread.WalkLength | src/service/query_info.rs:78-81 | every offset up to 128 adds at least one in-range distance, so 127 distances are always reachable and the loop ends |
| DistanceSpread.WalkRankIncreasing | src/service/query_info.rs:87-98 | the outward walk visits distances in strictly increasing alternation rank, with `+` before `-` at each offset |
| DistanceSpread.WalkComplete | src/service/query_info.rs:87-98 | the walk up to offset n reaches every in-range distance within offset n of d, so an out-of-range candidate is skipped, never replaced |
| Query.DistancesFor | src/service/query_info.rs:77-100 | `findnode_log2distance` returns nothing exactly when peer equals target. Otherwise it returns `size` entries meeting the spread characterisation around the peer's distance, starting with that distance |
| Query.FindNodeLog2Distance | src/service/query_info.rs:77-100 | the imperative version (key conversion, `?` on the distance, the loop, the cut) returns exactly `DistancesFor`: None iff peer equals target, else `size` entries |
| Query.SpreadByLoop | src/service/query_info.rs:86-99 | the push/guard loop with its asymmetric second guard, followed by the cut `[..size]`, yields exactly the spread, including the empty list when size is 0 |
| Query.RpcRequest | src/service/query_info.rs:42-55 | the request shape follows the query kind, and a value request carries the query's key. Distances are `[0]` when the peer is the target, else the spread around the peer's distance. Every distance is in [0, 256] |
| Query.TargetKey | src/service/query_info.rs:59-68 | both query kinds project to the key of their target id: preimage the id, hash its raw bytes |
| Query.TargetKeyInjective | src/service/query_info.rs:58-68 | two queries have the same key exactly when they look for the same id, whatever their kinds |
| Query.RequestCentredOnTargetKey | src/service/query_info.rs:44-47 | the first requested distance is the peer's distance from the key the query pool tracks the query by |
| QueryScenarios.SingleByteDistance | src/service/query_info.rs:108-111 | a peer that differs from the zero id only in byte i, holding value v, is at distance 8*(31-i) + bitlength(v): 169 for byte 10 = 1, 4 for byte 31 = 8, 252 for byte 0 = 8 |
| QueryScenarios.SpreadAround169 | src/service/query_info.rs:107-119 | for the all-zero target and a peer whose byte 10 is 1, a request for 9 distances yields [169,170,168,171,167,172,166,173,165] |
| QueryScenarios.SpreadNearZero | src/service/query_info.rs:122-134 | for the all-zero target and a peer whose byte 31 is 8, a request for 11 distances yields [4,5,3,6,2,7,1,8,0,9,10]: below 0 the `-` side stops and `+` fills the rest |
| QueryScenarios.SpreadNear256 | src/service/query_info.rs:137-149 | for the all-zero target and a peer whose byte 0 is 8, a request for 11 distances yields [252,253,251,254,250,255,249,256,248,247,246]: above 256 the `+` side stops and `-` fills the rest |
| QueryScenarios.SelfRequestFallsBack | src/service/query_info.rs:45-51 | for every id, a request to the target itself asks for `[0]` alone, in both request shapes |

## Left out

- `QueryCallback` (src/service/query_info.rs:35-38): one-shot and unbounded channels are concurrency plumbing. No operation of this core reads them.
- `untrusted_enrs`: carried as an uninterpreted sequence of opaque records. No operation here reads or changes it. Every operation is a pure function, so a `QueryInfo` is never modified.
- The panic for `size > 127` (src/service/query_info.rs:78-81) is a precondition (`size <= MAX_SIZE`, `QueryInfo.Valid`), not a modelled failure.
- The `kbucket` implementations of `log2_distance`, `Key::new_raw` and `From<NodeId> for Key` lie outside this model; keys.dfy and node_id.dfy specify them directly. The distance is written as `256 - leading_zeros(hash XOR hash)` over 32 big-endian bytes. The conversion `peer.into()` is assumed to build the same raw-byte key as src/service/query_info.rs:62. `GenericArray` (from the generic_array crate) is replaced by the 32-byte `Raw`.
- The other `RequestBody` variants, their wire encoding, and `FindValueError` belong to the RPC layer.

## Notes

- Identical ids have no distance at all. The `?` at src/service/query_info.rs:84 turns them into `None`; no value such as 256 is reserved for them. Real distances lie in [1, 256], and the model follows this.
- The comment at src/service/query_info.rs:125 says the peer with byte 31 = 8 is at distance 5. The asserted vector at :128 starts with 4, and 4 is correct: the highest set bit is bit 3, counted from 0. `QueryScenarios.SingleByteDistance` gives 4.
