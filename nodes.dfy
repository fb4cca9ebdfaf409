/** The peer entity (`Node`) as the registry reads and writes it. */
module Nodes {

  newtype byte = b: int | 0 <= b < 256

  type Bytes = seq<byte>

  /** Byte sizes of the fields `FieldByteSize.identifier` and `FieldByteSize.ipAddress`. */
  const IdentifierSize: nat := 32
  const IpAddressSize: nat := 4

  /** A node is referred to by its handle in the registry's arena, standing for a Java reference. */
  type Handle = nat

  /** The mutable fields of a `Node` object. `fullNode` tells whether it accepts incoming connections;
      `queueTimestamp` is its ordering key for collisions. */
  datatype Node = Node(identifier: Bytes, ipAddress: Bytes, port: int, fullNode: bool, queueTimestamp: int)
}
