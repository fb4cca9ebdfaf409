# NodeManager peer registry, modelled in Dafny

This project models `NodeManager`, the peer registry of a Nyzo verifier node. The registry keeps
three structures in step: the node pool (an ordered list of peers), an index from IP address to
node and an index from identifier to node. Its `updateNode` merges peer announcements in five
cases. Beside the registry sits a consecutive-failure counter per (host, port) pair. The eighth
failure in a row evicts the peer at that host.

Layout:

- `wrappers.dfy`: `Option`, standing for a Java reference that may be null.
- `nodes.dfy`: the `Node` record (identifier, IP address, port, full-node flag, queue timestamp),
  bytes, and the field sizes.
- `pool.dfy`: `List.remove(Object)` on the pool (`RemoveFirst`), and the "no repetitions" predicate.
- `mesh.dfy`: the registry as a value. Java object references become handles into an arena of node
  records. `updateNode`, `removeNodeFromMesh`, `getMesh`, `connectedToMesh` and
  `identifierForIpAddress` are functions from the old state. Lemmas state what each case of the
  merge does and which invariant every operation keeps.
- `health.dfy`: the failure counter as functions on the failure map, with lemmas about streaks of
  failures and resets.
- `registry.dfy`: class `NodeManager`. Its fields are the pool, the two indices, the failure map and
  the node arena. Its methods update them step by step as the Java code does. Each method's
  `ensures` ties the new state to the function in `mesh.dfy` or `health.dfy`, so the lemmas there
  apply to the object.

### What the code keeps, and what it does not

The merge is meant to keep one node per address and one node per identifier. The invariant the
code actually keeps (`Mesh.Consistent`) goes one way only:

- the pool holds each node at most once;
- every pool node is found in the address index under its current address;
- every pool node is found in the identifier index under its current identifier.

It follows that no two pool nodes share an address or an identifier (`Mesh.PoolKeysUnique`).

The stronger reading, that every index entry points to a pool node, does not hold. The model
keeps the stale entries the code leaves behind:

- cases 2 and 3 keep the node's old identifier key or old address key;
- case 5 removes the losing node from the pool only, so both its index entries stay;
- `removeNodeFromMesh` deletes the identifier entry with a `byte[]` argument from a map keyed by
  `ByteBuffer`, so that call removes nothing.

`Mesh.RemovedNodeStaysOut` shows one consequence. Take a peer evicted at its address. When it
announces itself again with the same identifier and address, the stale identifier entry sends the
update to the removed node, and the peer does not come back into the pool.

`removeNodeFromMesh` therefore leaves the identifier entry of the removed node in place, because
of the key type at `NodeManager.java:170`, and the model does the same.

## Model

| member | source | states |
|---|---|---|
| `Pool.RemoveFirst` | src/main/java/co/nyzo/verifier/NodeManager.java:169 | `List.remove(node)` on the pool: one element shorter exactly when the node was present; its other properties are in `Pool.RemoveFirstDistinct` and `Pool.RemoveFirstIsWithout` |
| `Pool.RemoveFirstDistinct` | src/main/java/co/nyzo/verifier/NodeManager.java:169 | on a pool without repetitions, `List.remove(node)` drops exactly that node, one element shorter when it was present, and keeps the pool free of repetitions |
| `Pool.RemoveFirstIsWithout` | src/main/java/co/nyzo/verifier/NodeManager.java:169 | on a pool without repetitions, `List.remove(node)` gives exactly the other nodes in their old order, as the independent definition `Pool.Without` lists them |
| `Mesh.Lookup` | src/main/java/co/nyzo/verifier/NodeManager.java:51-52 | `Map.get`: the node under the key, none when absent; no contract of its own, its use is stated by the case lemmas of `updateNode` below |
| `Mesh.ValidFields` | src/main/java/co/nyzo/verifier/NodeManager.java:44-45 | the guard of `updateNode`; no contract of its own, `Mesh.UpdateRejectsInvalid` states what failing it means |
| `Mesh.Empty` | src/main/java/co/nyzo/verifier/NodeManager.java:19-21 | the empty pool and empty indices satisfy the registry invariant |
| `Mesh.UpdateNode` | src/main/java/co/nyzo/verifier/NodeManager.java:38-111 | every case of the merge leaves the pool and both indices referring to existing nodes, and the counter for fresh handles never goes back |
| `Mesh.UpdateRejectsInvalid` | src/main/java/co/nyzo/verifier/NodeManager.java:44-45 | a null identifier or address, or one of the wrong byte size, leaves the whole registry unchanged |
| `Mesh.UpdateAppendsNewNode` | src/main/java/co/nyzo/verifier/NodeManager.java:61-75 | when neither lookup finds a node, a fresh node goes at the end of the pool and both indices map the new keys to it; its queue timestamp is the argument when that is > 0 and the constructor's default otherwise; no other node changes; the registry invariant carries over |
| `Mesh.UpdateFoundByAddressOnly` | src/main/java/co/nyzo/verifier/NodeManager.java:76-82 | found by address only: pool and address index unchanged; that node takes the new identifier and port; the identifier index gains exactly one entry and every old entry, the node's old key included, stays |
| `Mesh.UpdateFoundByIdentifierOnly` | src/main/java/co/nyzo/verifier/NodeManager.java:83-89 | found by identifier only: pool and identifier index unchanged; that node takes the new address and port; the address index gains exactly one entry and every old entry stays |
| `Mesh.UpdateSameNode` | src/main/java/co/nyzo/verifier/NodeManager.java:90-94 | both lookups give one node: only its port changes; pool, indices and every other node are untouched |
| `Mesh.UpdateCollisionAddressWins` | src/main/java/co/nyzo/verifier/NodeManager.java:95-102 | two different nodes and the address-found one strictly older: it takes the new identifier and port, the identifier-found node leaves the pool and the other nodes keep their order, only the identifier entry is re-pointed, the loser's address entry stays, and the invariant holds afterwards |
| `Mesh.UpdateCollisionIdentifierWins` | src/main/java/co/nyzo/verifier/NodeManager.java:103-108 | two different nodes and timestamps not strictly smaller (ties included): the address-found node leaves the pool and the other nodes keep their order, the identifier-found node takes the new address and port, only the address entry is re-pointed, and the invariant holds afterwards |
| `Mesh.UpdateLinksKeys` | src/main/java/co/nyzo/verifier/NodeManager.java:61-108 | after any accepted update, the address and the identifier lead to one and the same node, and that node has the new port |
| `Mesh.RepublishKeepsPool` | src/main/java/co/nyzo/verifier/NodeManager.java:90-94 | repeating an update with the same identifier and address keeps the pool, its size and both indices, and changes only that node's port |
| `Mesh.UpdateKeepsTimestamps` | src/main/java/co/nyzo/verifier/NodeManager.java:65-74 | no existing node ever changes its queue timestamp or its full-node flag, and no node record is lost |
| `Mesh.UpdatePreservesConsistent` | src/main/java/co/nyzo/verifier/NodeManager.java:54-60 | every case of `updateNode`, the rejected call included, keeps the registry invariant |
| `Mesh.PoolKeysUnique` | src/main/java/co/nyzo/verifier/NodeManager.java:54-55 | in a registry satisfying the invariant, no two pool nodes share an address or an identifier |
| `Mesh.CollisionScenario` | src/main/java/co/nyzo/verifier/NodeManager.java:95-102 | X (timestamp 10) and Y (timestamp 20) in the pool, then an update claiming Y's identifier at X's address: X survives with that identifier and the new port, and the pool is just X |
| `Mesh.RemoveNodeFromMesh` | src/main/java/co/nyzo/verifier/NodeManager.java:162-174 | removal leaves the pool and both indices referring to existing nodes |
| `Mesh.GetMesh` | src/main/java/co/nyzo/verifier/NodeManager.java:113-115 | the pool's nodes in pool order; no contract of its own, `Mesh.PoolKeysUnique` states its length and that no two of its nodes share an address or an identifier |
| `Mesh.ConnectedToMesh` | src/main/java/co/nyzo/verifier/NodeManager.java:117-122 | the pool holds more than one node; no contract of its own, `Registry.NodeManager.ConnectedToMesh` carries it as its postcondition |
| `Mesh.IdentifierForIpAddress` | src/main/java/co/nyzo/verifier/NodeManager.java:124-136 | the current identifier of the node indexed at the parsed address; no contract of its own, `Mesh.IdentifierForPoolNode` states its results |
| `Mesh.RemoveNoOp` | src/main/java/co/nyzo/verifier/NodeManager.java:164-168 | removal changes nothing when the host does not parse or no node sits at the address |
| `Mesh.RemoveAtAddress` | src/main/java/co/nyzo/verifier/NodeManager.java:166-170 | otherwise the address entry is deleted and exactly the node found there leaves the pool, the other nodes keeping their order; the identifier index is unchanged, and for a pool node its identifier entry still points at it |
| `Mesh.RemovePreservesConsistent` | src/main/java/co/nyzo/verifier/NodeManager.java:162-174 | removal keeps the registry invariant |
| `Mesh.IdentifierForPoolNode` | src/main/java/co/nyzo/verifier/NodeManager.java:124-136 | a parse failure or an unknown address gives none; for a pool node, looking up its address gives its identifier |
| `Mesh.RemovedNodeStaysOut` | src/main/java/co/nyzo/verifier/NodeManager.java:162-174 | a pool node removed at its address and then announced again with the same identifier and address stays out of the pool: the pool is one shorter and no pool node carries that identifier |
| `Health.MarkFailedConnection` | src/main/java/co/nyzo/verifier/NodeManager.java:138-154 | a failure never touches the counters of other (host, port) pairs |
| `Health.MarkSuccessfulConnection` | src/main/java/co/nyzo/verifier/NodeManager.java:156-160 | the pair's counter is gone afterwards, every other counter stays with its value, and no counter is added |
| `Health.TrackerKeepsRange` | src/main/java/co/nyzo/verifier/NodeManager.java:148-159 | a failure and a success both keep every stored count in 1..7 |
| `Health.FailuresBelowThreshold` | src/main/java/co/nyzo/verifier/NodeManager.java:140-149 | from no recorded failure, the k-th consecutive failure (k < 8) stores k, asks for no removal and changes no other key |
| `Health.EighthFailureRemoves` | src/main/java/co/nyzo/verifier/NodeManager.java:148-153 | the eighth consecutive failure deletes the counter, giving back the map from before the streak, and asks for the node's removal; the seven before it do not |
| `Health.SuccessResetsStreak` | src/main/java/co/nyzo/verifier/NodeManager.java:156-160 | a success deletes the counter whatever its value, so the k-th failure after it (k < 8) stores k |
| `Registry.NodeManager.constructor` | src/main/java/co/nyzo/verifier/NodeManager.java:19-24 | a new registry is empty, satisfies the invariant and has no failure counters |
| `Registry.NodeManager.UpdateNode` | src/main/java/co/nyzo/verifier/NodeManager.java:33-36 | the four-argument overload is the full one with queue timestamp 0; it keeps the invariant and leaves the failure map alone |
| `Registry.NodeManager.UpdateNodeWithTimestamp` | src/main/java/co/nyzo/verifier/NodeManager.java:38-111 | the step-by-step update gives the state `Mesh.UpdateNode` describes, keeps the invariant and leaves the failure map alone |
| `Registry.NodeManager.GetMesh` | src/main/java/co/nyzo/verifier/NodeManager.java:113-115 | a copy of the pool's nodes in pool order, of the pool's length, in which no two nodes share an address or an identifier |
| `Registry.NodeManager.ConnectedToMesh` | src/main/java/co/nyzo/verifier/NodeManager.java:117-122 | true exactly when the pool holds more than one node |
| `Registry.NodeManager.IdentifierForIpAddress` | src/main/java/co/nyzo/verifier/NodeManager.java:124-136 | some identifier exactly when the address parses and has an index entry; it is the current identifier of the indexed node, and for a pool node at that address its own identifier |
| `Registry.NodeManager.MarkFailedConnection` | src/main/java/co/nyzo/verifier/NodeManager.java:138-154 | the failure map becomes the one `Health.MarkFailedConnection` gives; the registry changes only when that asks for removal, and then as `removeNodeFromMesh` of the host, whatever the port |
| `Registry.NodeManager.MarkSuccessfulConnection` | src/main/java/co/nyzo/verifier/NodeManager.java:156-160 | deletes the pair's counter and leaves the registry alone |
| `Registry.NodeManager.RemoveNodeFromMesh` | src/main/java/co/nyzo/verifier/NodeManager.java:162-174 | the state becomes the one `Mesh.RemoveNodeFromMesh` gives for the parsed host; the invariant holds and the failure map is unchanged |

## Left out

- Console output (`System.out.println`, `PrintUtil`, `IpUtil.addressAsString`): logging only.
- `synchronized` and the unsynchronized readers: every call is taken as atomic and sequential,
  because concurrency is not modelled.
- `IpUtil.addressFromString` is not part of this model. It is a function given to the registry's
  constructor, returning none where the Java code gets null.
- `IpUtil.addressAsInt` is not part of this model. The address bytes themselves are the index key,
  which assumes the conversion is one-to-one on 4-byte addresses.
- Exceptions: the `try`/`catch` in `identifierForIpAddress` is modelled only as "no identifier"
  when parsing fails. Exceptions the parser itself may throw are not modelled.
- `FieldByteSize` is not part of this model. The sizes are taken as 32 bytes for an identifier and
  4 for an address; no proof depends on these values.
- The `Node` class is not part of this model. Its constructor's default queue timestamp (the
  current time) is a parameter, nodes are compared and removed by identity (their handle), and its
  other members are left out.
- Aliasing: the nodes `getMesh` returns are copies of the records, not shared objects. The model
  also does not capture a caller later changing the identifier array a node and its `ByteBuffer` key
  share.
- The failure key `host + "___" + port` is modelled as the pair (host, port). For a non-null host the
  string form is one-to-one, because the port's decimal text contains no underscore. A null host
  gives the same key as the host text "null"; null hosts are not modelled.
- Integer widths: the port (`int`) and the queue timestamp (`long`) are unbounded integers. They
  are only compared and stored, never computed with, and the failure count never exceeds 8.
- `maximumNumberOfSeedVerifiers` is unused, and the message classes are only imported.
