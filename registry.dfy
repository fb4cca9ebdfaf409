/** `NodeManager` as one registry object: the Java class keeps its pool, its two indices and its
    failure map in static fields; here they are the fields of an instance, and the node objects
    live in an arena of records addressed by handle. */
module Registry {
  import opened Wrappers
  import opened Nodes
  import Pool
  import Mesh
  import Health

  class NodeManager {
    var arena: map<Handle, Node>
    var nextHandle: Handle
    var nodePool: seq<Handle>
    var ipAddressToNodeMap: map<Bytes, Handle>
    var identifierToNodeMap: map<Bytes, Handle>
    var nodeConnectionFailureMap: Health.FailureMap

    /** `IpUtil.addressFromString`: none when the text does not parse. */
    const addressFromString: string -> Option<Bytes>

    /** The registry part of the state, as a value. */
    function State(): Mesh.MeshState
      reads this
    {
      Mesh.MeshState(arena, nextHandle, nodePool, ipAddressToNodeMap, identifierToNodeMap)
    }

    ghost predicate Valid()
      reads this
    {
      Mesh.Consistent(State()) && Health.CountsInRange(nodeConnectionFailureMap)
    }

    constructor (addressFromString: string -> Option<Bytes>)
      ensures Valid()
      ensures State() == Mesh.Empty() && nodeConnectionFailureMap == map[]
      ensures this.addressFromString == addressFromString
    {
      arena, nextHandle, nodePool := map[], 0, [];
      ipAddressToNodeMap, identifierToNodeMap := map[], map[];
      nodeConnectionFailureMap := map[];
      this.addressFromString := addressFromString;
    }

    /** The four-argument `updateNode`: the full one with queue timestamp 0. */
    method UpdateNode(identifier: Option<Bytes>, ipAddress: Option<Bytes>, port: int, fullNode: bool,
                      defaultTimestamp: int)
      requires Valid()
      modifies this
      ensures Valid()
      ensures State() == Mesh.UpdateNode(old(State()), identifier, ipAddress, port, fullNode, 0, defaultTimestamp)
      ensures nodeConnectionFailureMap == old(nodeConnectionFailureMap)
    {
      UpdateNodeWithTimestamp(identifier, ipAddress, port, fullNode, 0, defaultTimestamp);
    }

    /** The five-argument `updateNode`. `defaultTimestamp` is what the `Node` constructor would
        give a new node as its queue timestamp. */
    method UpdateNodeWithTimestamp(identifier: Option<Bytes>, ipAddress: Option<Bytes>, port: int,
                                   fullNode: bool, queueTimestamp: int, defaultTimestamp: int)
      requires Valid()
      modifies this
      ensures Valid()
      ensures State() == Mesh.UpdateNode(old(State()), identifier, ipAddress, port, fullNode, queueTimestamp, defaultTimestamp)
      ensures nodeConnectionFailureMap == old(nodeConnectionFailureMap)
    {
      ghost var before := State();
      ghost var after := Mesh.UpdateNode(before, identifier, ipAddress, port, fullNode, queueTimestamp, defaultTimestamp);
      Mesh.UpdatePreservesConsistent(before, identifier, ipAddress, port, fullNode, queueTimestamp, defaultTimestamp);
      if identifier.Some? && |identifier.value| == IdentifierSize &&
         ipAddress.Some? && |ipAddress.value| == IpAddressSize
      {
        var id, ip := identifier.value, ipAddress.value;
        var existingNodeForIp := Mesh.Lookup(ipAddressToNodeMap, ip);
        var existingNodeForIdentifier := Mesh.Lookup(identifierToNodeMap, id);

        if existingNodeForIp.None? && existingNodeForIdentifier.None? {
          var newNode := nextHandle;
          var record := Node(id, ip, port, fullNode, defaultTimestamp);
          nextHandle := nextHandle + 1;
          nodePool := nodePool + [newNode];
          ipAddressToNodeMap := ipAddressToNodeMap[ip := newNode];
          identifierToNodeMap := identifierToNodeMap[id := newNode];
          // the Java code sets the timestamp on the node object after inserting it
          if queueTimestamp > 0 {
            record := record.(queueTimestamp := queueTimestamp);
          }
          arena := arena[newNode := record];
        } else if existingNodeForIdentifier.None? {
          var a := existingNodeForIp.value;
          arena := arena[a := arena[a].(identifier := id, port := port)];
          identifierToNodeMap := identifierToNodeMap[id := a];
        } else if existingNodeForIp.None? {
          var b := existingNodeForIdentifier.value;
          arena := arena[b := arena[b].(ipAddress := ip, port := port)];
          ipAddressToNodeMap := ipAddressToNodeMap[ip := b];
        } else if existingNodeForIp == existingNodeForIdentifier {
          var a := existingNodeForIp.value;
          arena := arena[a := arena[a].(port := port)];
        } else {
          var a, b := existingNodeForIp.value, existingNodeForIdentifier.value;
          if arena[a].queueTimestamp < arena[b].queueTimestamp {
            nodePool := Pool.RemoveFirst(nodePool, b);
            arena := arena[a := arena[a].(identifier := id, port := port)];
            identifierToNodeMap := identifierToNodeMap[id := a];
          } else {
            nodePool := Pool.RemoveFirst(nodePool, a);
            arena := arena[b := arena[b].(ipAddress := ip, port := port)];
            ipAddressToNodeMap := ipAddressToNodeMap[ip := b];
          }
        }
      }
      assert State() == after;
    }

    /** `getMesh`: a copy of the pool's nodes, in pool order; no two of them share an address or an
        identifier. */
    method GetMesh() returns (mesh: seq<Node>)
      requires Valid()
      ensures |mesh| == |nodePool|
      ensures forall i :: 0 <= i < |mesh| ==> mesh[i] == arena[nodePool[i]]
      ensures forall i, j :: 0 <= i < j < |mesh| ==>
        mesh[i].ipAddress != mesh[j].ipAddress && mesh[i].identifier != mesh[j].identifier
    {
      mesh := Mesh.GetMesh(State());
      Mesh.PoolKeysUnique(State());
    }

    /** `connectedToMesh`: at least two nodes are in the pool. */
    method ConnectedToMesh() returns (connected: bool)
      ensures connected <==> |nodePool| > 1
    {
      connected := Mesh.ConnectedToMesh(State());
    }

    /** `identifierForIpAddress`: the identifier of the node the address index holds for the parsed
        address; for a pool node at that address, its own identifier. */
    method IdentifierForIpAddress(addressString: string) returns (identifier: Option<Bytes>)
      requires Valid()
      ensures identifier.Some? <==> addressFromString(addressString).Some? && addressFromString(addressString).value in ipAddressToNodeMap
      ensures identifier.Some? ==> identifier.value == arena[ipAddressToNodeMap[addressFromString(addressString).value]].identifier
      ensures forall i :: 0 <= i < |nodePool| && Some(arena[nodePool[i]].ipAddress) == addressFromString(addressString) ==>
        identifier == Some(arena[nodePool[i]].identifier)
    {
      var ipAddress := addressFromString(addressString);
      identifier := Mesh.IdentifierForIpAddress(State(), ipAddress);
      Mesh.IdentifierForPoolNode(State(), ipAddress);
    }

    /** `markFailedConnection`: counts the failure and, on the eighth in a row, deletes the counter
        and removes the node at the host, whatever the port. */
    method MarkFailedConnection(hostNameOrIp: string, port: int)
      requires Valid()
      modifies this
      ensures Valid()
      ensures var outcome := Health.MarkFailedConnection(old(nodeConnectionFailureMap), Health.FailureKey(hostNameOrIp, port));
        && nodeConnectionFailureMap == outcome.failures
        && State() == if outcome.removeNode then Mesh.RemoveNodeFromMesh(old(State()), addressFromString(hostNameOrIp))
                      else old(State())
    {
      var key := Health.FailureKey(hostNameOrIp, port);
      var count := if key in nodeConnectionFailureMap then nodeConnectionFailureMap[key] + 1 else 1;
      Health.TrackerKeepsRange(nodeConnectionFailureMap, key);
      if count < Health.ConsecutiveFailuresBeforeRemoval {
        nodeConnectionFailureMap := nodeConnectionFailureMap[key := count];
      } else {
        nodeConnectionFailureMap := nodeConnectionFailureMap - {key};
        RemoveNodeFromMesh(hostNameOrIp);
      }
    }

    /** `markSuccessfulConnection`: deletes the counter for the pair. */
    method MarkSuccessfulConnection(hostNameOrIp: string, port: int)
      requires Valid()
      modifies this
      ensures Valid()
      ensures nodeConnectionFailureMap == Health.MarkSuccessfulConnection(old(nodeConnectionFailureMap), Health.FailureKey(hostNameOrIp, port))
      ensures State() == old(State())
    {
      Health.TrackerKeepsRange(nodeConnectionFailureMap, Health.FailureKey(hostNameOrIp, port));
      nodeConnectionFailureMap := nodeConnectionFailureMap - {Health.FailureKey(hostNameOrIp, port)};
    }

    /** `removeNodeFromMesh`: parses the host, then drops its address entry and the node found
        there from the pool; the identifier index is left as it is. */
    method RemoveNodeFromMesh(hostNameOrIp: string)
      requires Valid()
      modifies this
      ensures Valid()
      ensures State() == Mesh.RemoveNodeFromMesh(old(State()), addressFromString(hostNameOrIp))
      ensures nodeConnectionFailureMap == old(nodeConnectionFailureMap)
    {
      ghost var before := State();
      var ipAddress := addressFromString(hostNameOrIp);
      if ipAddress.Some? {
        var ipAddressValue := ipAddress.value;
        var node: Option<Handle> := None;
        if ipAddressValue in ipAddressToNodeMap {
          node := Some(ipAddressToNodeMap[ipAddressValue]);
          ipAddressToNodeMap := ipAddressToNodeMap - {ipAddressValue};
        }
        if node.Some? {
          nodePool := Pool.RemoveFirst(nodePool, node.value);
          // identifierToNodeMap.remove(node.getIdentifier()) matches no key: nothing to do
        }
      }
      Mesh.RemovePreservesConsistent(before, ipAddress);
    }
  }
}
