/** The two hash functions of the log, left uninterpreted.

    Nothing in this project fixes what the functions compute. Where a result
    depends on collision resistance, it is stated by exhibiting the offending
    inputs: on 32-byte digests a collision always exists, so its mere existence
    would say nothing. */
module Hashing {

  type Bytes = seq<bv8>

  /** A digest. Its length plays no part in any result. */
  datatype Hash = Hash(bytes: Bytes)

  const ZERO: Hash := Hash([0, 0, 0, 0, 0, 0, 0, 0, 0, 0, 0, 0, 0, 0, 0, 0,
                           0, 0, 0, 0, 0, 0, 0, 0, 0, 0, 0, 0, 0, 0, 0, 0])

  /** A leaf hash and a node hash, as any program could supply them. */
  datatype Hasher = Hasher(leafFn: Bytes -> Hash, nodeFn: (Hash, Hash) -> Hash) {

    function Leaf(data: Bytes): Hash {
      leafFn(data)
    }

    function Node(left: Hash, right: Hash): Hash {
      nodeFn(left, right)
    }
  }

  /** Evidence that the hash functions are broken: two different pairs of
      children under one node hash, or a leaf that is also a node hash. */
  datatype Break =
    | NodeCollision(left1: Hash, right1: Hash, left2: Hash, right2: Hash)
    | LeafIsNode(leaf: Hash, left: Hash, right: Hash)

  predicate IsNodeCollision(H: Hasher, b: Break) {
    && b.NodeCollision?
    && (b.left1, b.right1) != (b.left2, b.right2)
    && H.Node(b.left1, b.right1) == H.Node(b.left2, b.right2)
  }

  /** `b` is a node collision, or a member of `leaves` that is a node hash. */
  predicate IsBreak(H: Hasher, leaves: seq<Hash>, b: Break) {
    match b
    case NodeCollision(_, _, _, _) => IsNodeCollision(H, b)
    case LeafIsNode(leaf, left, right) => leaf in leaves && leaf == H.Node(left, right)
  }
}
