/** The peer registry of `NodeManager` as a value: an arena of node records standing for the Java
    heap, the ordered node pool, the index from IP address to node and the index from identifier
    to node. Each operation of the registry is a function from the old state to the new one. */
module Mesh {
  import opened Wrappers
  import opened Nodes
  import opened Pool

  datatype MeshState = MeshState(
    arena: map<Handle, Node>,           // every node ever created, by handle
    nextHandle: Handle,                 // the handle the next created node receives
    pool: seq<Handle>,                  // `nodePool`
    addressIndex: map<Bytes, Handle>,   // `ipAddressToNodeMap`
    identifierIndex: map<Bytes, Handle> // `identifierToNodeMap`
  )

  /** The arena is closed: handles below `nextHandle` only, and the pool and both indices refer
      to nodes of the arena. Every reachable state has this shape. */
  ghost predicate WellFormed(m: MeshState)
  {
    && (forall h :: h in m.arena ==> h < m.nextHandle)
    && (forall i :: 0 <= i < |m.pool| ==> m.pool[i] in m.arena)
    && (forall k :: k in m.addressIndex ==> m.addressIndex[k] in m.arena)
    && (forall k :: k in m.identifierIndex ==> m.identifierIndex[k] in m.arena)
  }

  /** Node `h` is found under its own current address and its own current identifier. */
  ghost predicate Indexed(m: MeshState, h: Handle)
    requires h in m.arena
  {
    var n := m.arena[h];
    && n.ipAddress in m.addressIndex && m.addressIndex[n.ipAddress] == h
    && n.identifier in m.identifierIndex && m.identifierIndex[n.identifier] == h
  }

  /** The registry invariant the code keeps: the pool holds each node at most once and every pool
      node is indexed under its current address and identifier. Index entries may still point to
      nodes that have left the pool, or to a node under a key it no longer carries. */
  ghost predicate Consistent(m: MeshState)
  {
    && WellFormed(m)
    && Distinct(m.pool)
    && (forall i :: 0 <= i < |m.pool| ==> Indexed(m, m.pool[i]))
  }

  /** The state of a fresh registry. */
  function Empty(): (m: MeshState)
    ensures Consistent(m) && m.pool == []
  {
    MeshState(map[], 0, [], map[], map[])
  }

  /** `Map.get`: the node stored under `key`, none when there is no entry. */
  function Lookup(index: map<Bytes, Handle>, key: Bytes): (r: Option<Handle>)
  {
    if key in index then Some(index[key]) else None
  }

  /** The guard of `updateNode`: both arrays are non-null and have the field sizes. */
  predicate ValidFields(identifier: Option<Bytes>, ipAddress: Option<Bytes>)
  {
    && identifier.Some? && |identifier.value| == IdentifierSize
    && ipAddress.Some? && |ipAddress.value| == IpAddressSize
  }

  /** `updateNode` with an explicit queue timestamp. `defaultTimestamp` is the timestamp the
      `Node` constructor gives a new node. */
  function UpdateNode(m: MeshState, identifier: Option<Bytes>, ipAddress: Option<Bytes>, port: int,
                      fullNode: bool, queueTimestamp: int, defaultTimestamp: int): (r: MeshState)
    requires WellFormed(m)
    ensures WellFormed(r)
    ensures r.nextHandle >= m.nextHandle
  {
    if !ValidFields(identifier, ipAddress) then m
    else
      var id, ip := identifier.value, ipAddress.value;
      var byIp, byId := Lookup(m.addressIndex, ip), Lookup(m.identifierIndex, id);
      if byIp.None? && byId.None? then
        // (1) neither lookup found a node: create one
        var h := m.nextHandle;
        var n := Node(id, ip, port, fullNode, if queueTimestamp > 0 then queueTimestamp else defaultTimestamp);
        MeshState(m.arena[h := n], h + 1, m.pool + [h], m.addressIndex[ip := h], m.identifierIndex[id := h])
      else if byId.None? then
        // (2) found by address only: take the new identifier and port
        var a := byIp.value;
        m.(arena := m.arena[a := m.arena[a].(identifier := id, port := port)],
           identifierIndex := m.identifierIndex[id := a])
      else if byIp.None? then
        // (3) found by identifier only: take the new address and port
        var b := byId.value;
        m.(arena := m.arena[b := m.arena[b].(ipAddress := ip, port := port)],
           addressIndex := m.addressIndex[ip := b])
      else if byIp == byId then
        // (4) the same node both ways: take the new port
        var a := byIp.value;
        m.(arena := m.arena[a := m.arena[a].(port := port)])
      else
        // (5) two different nodes: the one with the strictly smaller queue timestamp survives;
        // on a tie the node found by identifier survives
        var a, b := byIp.value, byId.value;
        if m.arena[a].queueTimestamp < m.arena[b].queueTimestamp then
          m.(arena := m.arena[a := m.arena[a].(identifier := id, port := port)],
             pool := RemoveFirst(m.pool, b),
             identifierIndex := m.identifierIndex[id := a])
        else
          m.(arena := m.arena[b := m.arena[b].(ipAddress := ip, port := port)],
             pool := RemoveFirst(m.pool, a),
             addressIndex := m.addressIndex[ip := b])
  }

  /** `removeNodeFromMesh` given the result of parsing the host name. The identifier entry is left
      in place: the Java code removes it with a `byte[]` key from a map keyed by `ByteBuffer`. */
  function RemoveNodeFromMesh(m: MeshState, ipAddress: Option<Bytes>): (r: MeshState)
    requires WellFormed(m)
    ensures WellFormed(r)
  {
    if ipAddress.None? || ipAddress.value !in m.addressIndex then m
    else
      var h := m.addressIndex[ipAddress.value];
      m.(addressIndex := m.addressIndex - {ipAddress.value}, pool := RemoveFirst(m.pool, h))
  }

  /** `getMesh`: the pool's nodes in pool order. */
  function GetMesh(m: MeshState): (r: seq<Node>)
    requires WellFormed(m)
  {
    seq(|m.pool|, i requires 0 <= i < |m.pool| => m.arena[m.pool[i]])
  }

  /** `connectedToMesh`. */
  function ConnectedToMesh(m: MeshState): (r: bool)
  {
    |m.pool| > 1
  }

  /** `identifierForIpAddress` given the result of parsing the address string: the current
      identifier of whatever node the address index holds. */
  function IdentifierForIpAddress(m: MeshState, ipAddress: Option<Bytes>): (r: Option<Bytes>)
    requires WellFormed(m)
  {
    if ipAddress.Some? && ipAddress.value in m.addressIndex then
      Some(m.arena[m.addressIndex[ipAddress.value]].identifier)
    else
      None
  }

  // ---------------------------------------------------------------------------------------------
  // updateNode, case by case

  /** A null or wrongly sized identifier or address changes nothing. */
  lemma UpdateRejectsInvalid(m: MeshState, identifier: Option<Bytes>, ipAddress: Option<Bytes>, port: int,
                             fullNode: bool, queueTimestamp: int, defaultTimestamp: int)
    requires WellFormed(m)
    requires identifier.None? || |identifier.value| != IdentifierSize || ipAddress.None? || |ipAddress.value| != IpAddressSize
    ensures UpdateNode(m, identifier, ipAddress, port, fullNode, queueTimestamp, defaultTimestamp) == m
  {
  }

  /** Case (1): a fresh node is appended to the pool and both indices map the new keys to it. The
      registry invariant carries over. */
  lemma UpdateAppendsNewNode(m: MeshState, id: Bytes, ip: Bytes, port: int, fullNode: bool,
                             queueTimestamp: int, defaultTimestamp: int)
    requires WellFormed(m) && |id| == IdentifierSize && |ip| == IpAddressSize
    requires ip !in m.addressIndex && id !in m.identifierIndex
    ensures var r := UpdateNode(m, Some(id), Some(ip), port, fullNode, queueTimestamp, defaultTimestamp);
      var h := m.nextHandle;
      && h !in m.arena && h !in m.pool
      && r.pool == m.pool + [h]
      && r.addressIndex == m.addressIndex[ip := h]
      && r.identifierIndex == m.identifierIndex[id := h]
      && h in r.arena && r.arena[h].identifier == id && r.arena[h].ipAddress == ip
      && r.arena[h].port == port && r.arena[h].fullNode == fullNode
      && (queueTimestamp > 0 ==> r.arena[h].queueTimestamp == queueTimestamp)
      && (queueTimestamp <= 0 ==> r.arena[h].queueTimestamp == defaultTimestamp)
      && (forall g :: g in m.arena ==> g in r.arena && r.arena[g] == m.arena[g])
      && (Consistent(m) ==> Consistent(r))
  {
    var r := UpdateNode(m, Some(id), Some(ip), port, fullNode, queueTimestamp, defaultTimestamp);
    assert forall i :: 0 <= i < |m.pool| ==> r.pool[i] == m.pool[i];
  }

  /** Case (2): the pool is unchanged; the node at the address takes the new identifier and port,
      and the identifier index gains an entry while the node's old identifier key stays. */
  lemma UpdateFoundByAddressOnly(m: MeshState, id: Bytes, ip: Bytes, port: int, fullNode: bool,
                                 queueTimestamp: int, defaultTimestamp: int)
    requires WellFormed(m) && |id| == IdentifierSize && |ip| == IpAddressSize
    requires ip in m.addressIndex && id !in m.identifierIndex
    ensures var r := UpdateNode(m, Some(id), Some(ip), port, fullNode, queueTimestamp, defaultTimestamp);
      var a := m.addressIndex[ip];
      && r.pool == m.pool
      && r.addressIndex == m.addressIndex
      && r.identifierIndex.Keys == m.identifierIndex.Keys + {id}
      && |r.identifierIndex| == |m.identifierIndex| + 1
      && r.identifierIndex[id] == a
      && (forall k :: k in m.identifierIndex ==> r.identifierIndex[k] == m.identifierIndex[k])
      && r.arena.Keys == m.arena.Keys
      && r.arena[a] == m.arena[a].(identifier := id, port := port)
      && (forall g :: g in m.arena && g != a ==> r.arena[g] == m.arena[g])
  {
  }

  /** Case (3), symmetric to (2): the node with the identifier takes the new address and port, and
      the address index gains an entry while the node's old address key stays. */
  lemma UpdateFoundByIdentifierOnly(m: MeshState, id: Bytes, ip: Bytes, port: int, fullNode: bool,
                                    queueTimestamp: int, defaultTimestamp: int)
    requires WellFormed(m) && |id| == IdentifierSize && |ip| == IpAddressSize
    requires ip !in m.addressIndex && id in m.identifierIndex
    ensures var r := UpdateNode(m, Some(id), Some(ip), port, fullNode, queueTimestamp, defaultTimestamp);
      var b := m.identifierIndex[id];
      && r.pool == m.pool
      && r.identifierIndex == m.identifierIndex
      && r.addressIndex.Keys == m.addressIndex.Keys + {ip}
      && |r.addressIndex| == |m.addressIndex| + 1
      && r.addressIndex[ip] == b
      && (forall k :: k in m.addressIndex ==> r.addressIndex[k] == m.addressIndex[k])
      && r.arena.Keys == m.arena.Keys
      && r.arena[b] == m.arena[b].(ipAddress := ip, port := port)
      && (forall g :: g in m.arena && g != b ==> r.arena[g] == m.arena[g])
  {
  }

  /** Case (4): both lookups give the same node; only its port changes. */
  lemma UpdateSameNode(m: MeshState, id: Bytes, ip: Bytes, port: int, fullNode: bool,
                       queueTimestamp: int, defaultTimestamp: int)
    requires WellFormed(m) && |id| == IdentifierSize && |ip| == IpAddressSize
    requires ip in m.addressIndex && id in m.identifierIndex && m.addressIndex[ip] == m.identifierIndex[id]
    ensures var r := UpdateNode(m, Some(id), Some(ip), port, fullNode, queueTimestamp, defaultTimestamp);
      var a := m.addressIndex[ip];
      && r.pool == m.pool && r.addressIndex == m.addressIndex && r.identifierIndex == m.identifierIndex
      && r.nextHandle == m.nextHandle
      && r.arena == m.arena[a := m.arena[a].(port := port)]
  {
  }

  /** Case (5), address-found node strictly older: it keeps its place and takes the new identifier
      and port; the identifier-found node leaves the pool but keeps its entries in the address index
      and the identifier entry alone is re-pointed. The registry invariant holds afterwards. */
  lemma UpdateCollisionAddressWins(m: MeshState, id: Bytes, ip: Bytes, port: int, fullNode: bool,
                                   queueTimestamp: int, defaultTimestamp: int)
    requires Consistent(m) && |id| == IdentifierSize && |ip| == IpAddressSize
    requires ip in m.addressIndex && id in m.identifierIndex && m.addressIndex[ip] != m.identifierIndex[id]
    requires m.arena[m.addressIndex[ip]].queueTimestamp < m.arena[m.identifierIndex[id]].queueTimestamp
    ensures var r := UpdateNode(m, Some(id), Some(ip), port, fullNode, queueTimestamp, defaultTimestamp);
      var a, b := m.addressIndex[ip], m.identifierIndex[id];
      && r.pool == Without(m.pool, b)
      && (forall g :: g in r.pool <==> g in m.pool && g != b)
      && |r.pool| == (if b in m.pool then |m.pool| - 1 else |m.pool|)
      && r.addressIndex == m.addressIndex
      && r.identifierIndex == m.identifierIndex[id := a]
      && r.arena[a] == m.arena[a].(identifier := id, port := port)
      && r.arena[b] == m.arena[b]
      && (forall g :: g in m.arena && g != a ==> r.arena[g] == m.arena[g])
      && Consistent(r)
  {
    var r := UpdateNode(m, Some(id), Some(ip), port, fullNode, queueTimestamp, defaultTimestamp);
    var a, b := m.addressIndex[ip], m.identifierIndex[id];
    assert r.pool == RemoveFirst(m.pool, b);
    RemoveFirstDistinct(m.pool, b);
    RemoveFirstIsWithout(m.pool, b);
    forall i | 0 <= i < |r.pool| ensures Indexed(r, r.pool[i]) {
      assert r.pool[i] in m.pool;
    }
  }

  /** Case (5), otherwise (ties included): the address-found node leaves the pool and the
      identifier-found node takes the new address and port; only the address entry is re-pointed.
      The registry invariant holds afterwards. */
  lemma UpdateCollisionIdentifierWins(m: MeshState, id: Bytes, ip: Bytes, port: int, fullNode: bool,
                                      queueTimestamp: int, defaultTimestamp: int)
    requires Consistent(m) && |id| == IdentifierSize && |ip| == IpAddressSize
    requires ip in m.addressIndex && id in m.identifierIndex && m.addressIndex[ip] != m.identifierIndex[id]
    requires m.arena[m.addressIndex[ip]].queueTimestamp >= m.arena[m.identifierIndex[id]].queueTimestamp
    ensures var r := UpdateNode(m, Some(id), Some(ip), port, fullNode, queueTimestamp, defaultTimestamp);
      var a, b := m.addressIndex[ip], m.identifierIndex[id];
      && r.pool == Without(m.pool, a)
      && (forall g :: g in r.pool <==> g in m.pool && g != a)
      && |r.pool| == (if a in m.pool then |m.pool| - 1 else |m.pool|)
      && r.identifierIndex == m.identifierIndex
      && r.addressIndex == m.addressIndex[ip := b]
      && r.arena[b] == m.arena[b].(ipAddress := ip, port := port)
      && r.arena[a] == m.arena[a]
      && (forall g :: g in m.arena && g != b ==> r.arena[g] == m.arena[g])
      && Consistent(r)
  {
    var r := UpdateNode(m, Some(id), Some(ip), port, fullNode, queueTimestamp, defaultTimestamp);
    var a, b := m.addressIndex[ip], m.identifierIndex[id];
    assert r.pool == RemoveFirst(m.pool, a);
    RemoveFirstDistinct(m.pool, a);
    RemoveFirstIsWithout(m.pool, a);
    forall i | 0 <= i < |r.pool| ensures Indexed(r, r.pool[i]) {
      assert r.pool[i] in m.pool;
    }
  }

  // ---------------------------------------------------------------------------------------------
  // updateNode, across all cases

  /** After an accepted update both keys lead to one node, and that node has the new port. */
  lemma UpdateLinksKeys(m: MeshState, id: Bytes, ip: Bytes, port: int, fullNode: bool,
                        queueTimestamp: int, defaultTimestamp: int)
    requires WellFormed(m) && |id| == IdentifierSize && |ip| == IpAddressSize
    ensures var r := UpdateNode(m, Some(id), Some(ip), port, fullNode, queueTimestamp, defaultTimestamp);
      && ip in r.addressIndex && id in r.identifierIndex
      && r.addressIndex[ip] == r.identifierIndex[id]
      && r.arena[r.addressIndex[ip]].port == port
  {
  }

  /** Repeating an update with the same identifier and address and another port keeps the pool and
      both indices as the first update left them, and changes that one node's port only. */
  lemma RepublishKeepsPool(m: MeshState, id: Bytes, ip: Bytes, port1: int, port2: int,
                           fullNode1: bool, fullNode2: bool, queueTimestamp1: int, queueTimestamp2: int,
                           defaultTimestamp1: int, defaultTimestamp2: int)
    requires WellFormed(m) && |id| == IdentifierSize && |ip| == IpAddressSize
    ensures var m1 := UpdateNode(m, Some(id), Some(ip), port1, fullNode1, queueTimestamp1, defaultTimestamp1);
      var m2 := UpdateNode(m1, Some(id), Some(ip), port2, fullNode2, queueTimestamp2, defaultTimestamp2);
      && ip in m1.addressIndex
      && m2.pool == m1.pool && |m2.pool| == |m1.pool|
      && m2.addressIndex == m1.addressIndex && m2.identifierIndex == m1.identifierIndex
      && m2.arena == m1.arena[m1.addressIndex[ip] := m1.arena[m1.addressIndex[ip]].(port := port2)]
  {
    var m1 := UpdateNode(m, Some(id), Some(ip), port1, fullNode1, queueTimestamp1, defaultTimestamp1);
    UpdateLinksKeys(m, id, ip, port1, fullNode1, queueTimestamp1, defaultTimestamp1);
    UpdateSameNode(m1, id, ip, port2, fullNode2, queueTimestamp2, defaultTimestamp2);
  }

  /** An existing node never gets a new queue timestamp or `fullNode` flag, and nodes are never
      destroyed: only a new node takes the given timestamp. */
  lemma UpdateKeepsTimestamps(m: MeshState, identifier: Option<Bytes>, ipAddress: Option<Bytes>, port: int,
                              fullNode: bool, queueTimestamp: int, defaultTimestamp: int)
    requires WellFormed(m)
    ensures var r := UpdateNode(m, identifier, ipAddress, port, fullNode, queueTimestamp, defaultTimestamp);
      forall g :: g in m.arena ==>
        && g in r.arena
        && r.arena[g].queueTimestamp == m.arena[g].queueTimestamp
        && r.arena[g].fullNode == m.arena[g].fullNode
  {
  }

  /** Every case of `updateNode` keeps the registry invariant. */
  lemma UpdatePreservesConsistent(m: MeshState, identifier: Option<Bytes>, ipAddress: Option<Bytes>, port: int,
                                  fullNode: bool, queueTimestamp: int, defaultTimestamp: int)
    requires Consistent(m)
    ensures Consistent(UpdateNode(m, identifier, ipAddress, port, fullNode, queueTimestamp, defaultTimestamp))
  {
    var r := UpdateNode(m, identifier, ipAddress, port, fullNode, queueTimestamp, defaultTimestamp);
    if ValidFields(identifier, ipAddress) {
      var id, ip := identifier.value, ipAddress.value;
      if ip !in m.addressIndex && id !in m.identifierIndex {
        UpdateAppendsNewNode(m, id, ip, port, fullNode, queueTimestamp, defaultTimestamp);
      } else if id !in m.identifierIndex {
      } else if ip !in m.addressIndex {
      } else if m.addressIndex[ip] == m.identifierIndex[id] {
      } else if m.arena[m.addressIndex[ip]].queueTimestamp < m.arena[m.identifierIndex[id]].queueTimestamp {
        UpdateCollisionAddressWins(m, id, ip, port, fullNode, queueTimestamp, defaultTimestamp);
      } else {
        UpdateCollisionIdentifierWins(m, id, ip, port, fullNode, queueTimestamp, defaultTimestamp);
      }
    }
  }

  /** The stated goal of the merge: no two pool nodes share an address or an identifier. */
  lemma PoolKeysUnique(m: MeshState)
    requires Consistent(m)
    ensures var s := GetMesh(m);
      && |s| == |m.pool|
      && forall i, j :: 0 <= i < j < |s| ==> s[i].ipAddress != s[j].ipAddress && s[i].identifier != s[j].identifier
  {
    var s := GetMesh(m);
    forall i, j | 0 <= i < j < |s| ensures s[i].ipAddress != s[j].ipAddress && s[i].identifier != s[j].identifier {
      assert Indexed(m, m.pool[i]) && Indexed(m, m.pool[j]);
    }
  }

  // ---------------------------------------------------------------------------------------------
  // removeNodeFromMesh and the address query

  /** Removal is a no-op when parsing failed or no node sits at the address. */
  lemma RemoveNoOp(m: MeshState, ipAddress: Option<Bytes>)
    requires WellFormed(m)
    requires ipAddress.None? || ipAddress.value !in m.addressIndex
    ensures RemoveNodeFromMesh(m, ipAddress) == m
  {
  }

  /** Otherwise the address entry and the node it names leave the registry, and the identifier index
      is untouched, so an entry for the removed node's identifier survives when it was a pool node. */
  lemma RemoveAtAddress(m: MeshState, ip: Bytes)
    requires Consistent(m) && ip in m.addressIndex
    ensures var r := RemoveNodeFromMesh(m, Some(ip));
      var h := m.addressIndex[ip];
      && r.addressIndex == m.addressIndex - {ip}
      && r.pool == Without(m.pool, h)
      && (forall g :: g in r.pool <==> g in m.pool && g != h)
      && |r.pool| == (if h in m.pool then |m.pool| - 1 else |m.pool|)
      && r.identifierIndex == m.identifierIndex
      && r.arena == m.arena
      && (h in m.pool ==> r.identifierIndex[m.arena[h].identifier] == h)
  {
    var h := m.addressIndex[ip];
    RemoveFirstDistinct(m.pool, h);
    RemoveFirstIsWithout(m.pool, h);
    if h in m.pool {
      var i :| 0 <= i < |m.pool| && m.pool[i] == h;
      assert Indexed(m, m.pool[i]);
    }
  }

  /** Removal keeps the registry invariant. */
  lemma RemovePreservesConsistent(m: MeshState, ipAddress: Option<Bytes>)
    requires Consistent(m)
    ensures Consistent(RemoveNodeFromMesh(m, ipAddress))
  {
    if ipAddress.Some? && ipAddress.value in m.addressIndex {
      var r := RemoveNodeFromMesh(m, ipAddress);
      RemoveFirstDistinct(m.pool, m.addressIndex[ipAddress.value]);
      forall i | 0 <= i < |r.pool| ensures Indexed(r, r.pool[i]) {
        assert r.pool[i] in m.pool;
      }
    }
  }

  /** For a pool node, looking up its address gives back its identifier; a failed parse or an
      unknown address gives none. */
  lemma IdentifierForPoolNode(m: MeshState, ipAddress: Option<Bytes>)
    requires Consistent(m)
    ensures ipAddress.None? ==> IdentifierForIpAddress(m, ipAddress) == None
    ensures ipAddress.Some? && ipAddress.value !in m.addressIndex ==> IdentifierForIpAddress(m, ipAddress) == None
    ensures forall i :: 0 <= i < |m.pool| && Some(m.arena[m.pool[i]].ipAddress) == ipAddress ==>
      IdentifierForIpAddress(m, ipAddress) == Some(m.arena[m.pool[i]].identifier)
  {
    forall i | 0 <= i < |m.pool| && Some(m.arena[m.pool[i]].ipAddress) == ipAddress
      ensures IdentifierForIpAddress(m, ipAddress) == Some(m.arena[m.pool[i]].identifier)
    {
      assert Indexed(m, m.pool[i]);
    }
  }

  /** Because removal leaves the identifier entry behind, a pool node removed at its address that is
      announced again with the same identifier and address is not put back: the announcement updates
      the removed node, and no pool node carries that identifier afterwards. */
  lemma RemovedNodeStaysOut(m: MeshState, i: nat, port: int, fullNode: bool,
                            queueTimestamp: int, defaultTimestamp: int)
    requires Consistent(m) && i < |m.pool|
    requires |m.arena[m.pool[i]].identifier| == IdentifierSize && |m.arena[m.pool[i]].ipAddress| == IpAddressSize
    ensures var n := m.arena[m.pool[i]];
      var m1 := RemoveNodeFromMesh(m, Some(n.ipAddress));
      var m2 := UpdateNode(m1, Some(n.identifier), Some(n.ipAddress), port, fullNode, queueTimestamp, defaultTimestamp);
      && m.pool[i] !in m2.pool
      && |m2.pool| == |m.pool| - 1
      && forall g :: g in m2.pool ==> m2.arena[g].identifier != n.identifier
  {
    var h := m.pool[i];
    var n := m.arena[h];
    assert Indexed(m, h);
    var m1 := RemoveNodeFromMesh(m, Some(n.ipAddress));
    RemoveAtAddress(m, n.ipAddress);
    RemovePreservesConsistent(m, Some(n.ipAddress));
    var m2 := UpdateNode(m1, Some(n.identifier), Some(n.ipAddress), port, fullNode, queueTimestamp, defaultTimestamp);
    UpdateFoundByIdentifierOnly(m1, n.identifier, n.ipAddress, port, fullNode, queueTimestamp, defaultTimestamp);
    UpdatePreservesConsistent(m1, Some(n.identifier), Some(n.ipAddress), port, fullNode, queueTimestamp, defaultTimestamp);
    forall g | g in m2.pool ensures m2.arena[g].identifier != n.identifier {
      var k :| 0 <= k < |m2.pool| && m2.pool[k] == g;
      assert Indexed(m2, m2.pool[k]);
    }
  }

  /** Two announcements fill an empty registry with X (identifier i1, address a1, timestamp 10)
      and Y (identifier i2, address a2, timestamp 20); a third one claims i2 at a1. X is the older
      of the two, so it survives with identifier i2 and the new port, and Y leaves the pool. */
  lemma CollisionScenario(i1: Bytes, i2: Bytes, a1: Bytes, a2: Bytes, port: int)
    requires |i1| == |i2| == IdentifierSize && |a1| == |a2| == IpAddressSize
    requires i1 != i2 && a1 != a2
    ensures var m1 := UpdateNode(Empty(), Some(i1), Some(a1), 9000, true, 10, 0);
      var m2 := UpdateNode(m1, Some(i2), Some(a2), 9000, true, 20, 0);
      var m3 := UpdateNode(m2, Some(i2), Some(a1), port, true, 0, 0);
      && |m2.pool| == 2
      && m3.pool == [0]
      && m3.arena[0].identifier == i2 && m3.arena[0].ipAddress == a1 && m3.arena[0].port == port
      && m3.addressIndex[a1] == 0 && m3.identifierIndex[i2] == 0
  {
    var m0 := Empty();
    UpdateAppendsNewNode(m0, i1, a1, 9000, true, 10, 0);
    var m1 := UpdateNode(m0, Some(i1), Some(a1), 9000, true, 10, 0);
    UpdatePreservesConsistent(m0, Some(i1), Some(a1), 9000, true, 10, 0);
    UpdateAppendsNewNode(m1, i2, a2, 9000, true, 20, 0);
    var m2 := UpdateNode(m1, Some(i2), Some(a2), 9000, true, 20, 0);
    UpdatePreservesConsistent(m1, Some(i2), Some(a2), 9000, true, 20, 0);
    assert m2.pool == [0, 1];
    UpdateCollisionAddressWins(m2, i2, a1, port, true, 0, 0);
    var m3 := UpdateNode(m2, Some(i2), Some(a1), port, true, 0, 0);
    assert m3.pool == RemoveFirst([0, 1], 1);
    assert FirstIndex([0, 1], 1) == 1;
    assert [0, 1][..1] == [0];
  }
}
