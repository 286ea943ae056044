/** Node identity in the vocabulary tree (src/vocab.rs, `NodeId` and
    `SerializableNodeId`).

    A `Block` id names a non-leaf node; a `Leaf` carries the ids of its
    ancestor blocks (root excluded) followed by its own word id, which is
    the direct index of every descriptor routed to it. The in-memory form
    keeps the path in a small vector; the serialisable form keeps it in a
    plain vector. Both are sequences here, so the two types differ only in
    name, and the conversions must preserve every element. */
module NodeIds {

  datatype NodeId = Block(bid: nat) | Leaf(path: seq<nat>)

  datatype SerializableNodeId = SerBlock(sbid: nat) | SerLeaf(spath: seq<nat>)

  /** `NodeId::serialize`: the value handed to the serialiser. */
  function ToSerializable(n: NodeId): (s: SerializableNodeId)
    ensures s.SerBlock? <==> n.Block?
    ensures n.Block? ==> s.sbid == n.bid
    ensures n.Leaf? ==> |s.spath| == |n.path| && forall i :: 0 <= i < |n.path| ==> s.spath[i] == n.path[i]
  {
    match n
    case Block(id) => SerBlock(id)
    case Leaf(p) => SerLeaf(p)
  }

  /** `NodeId::deserialize`: rebuilds the in-memory id. */
  function FromSerializable(s: SerializableNodeId): (n: NodeId)
    ensures n.Block? <==> s.SerBlock?
    ensures s.SerBlock? ==> n.bid == s.sbid
    ensures s.SerLeaf? ==> |n.path| == |s.spath| && forall i :: 0 <= i < |s.spath| ==> n.path[i] == s.spath[i]
  {
    match s
    case SerBlock(id) => Block(id)
    case SerLeaf(p) => Leaf(p)
  }

  /** Serialising then deserialising gives back the same id. */
  lemma SerializeRoundTrip(n: NodeId)
    ensures FromSerializable(ToSerializable(n)) == n
  {
  }

  /** Deserialising then serialising gives back the same serialised value. */
  lemma DeserializeRoundTrip(s: SerializableNodeId)
    ensures ToSerializable(FromSerializable(s)) == s
  {
  }

  /** `get_bid`: the number of a block id; a leaf id is unreachable there. */
  function GetBid(n: NodeId): (id: nat)
    requires n.Block?
    ensures n == Block(id)
  {
    n.bid
  }

  /** The word id of a leaf: the last element of its path. */
  function Word(n: NodeId): nat
    requires n.Leaf? && |n.path| > 0
  {
    n.path[|n.path| - 1]
  }
}
