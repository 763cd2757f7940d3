/** What a node carries, as far as rings and clusters look at it. */
module Nodes {
  import opened Sequences
  import opened IntrusiveList

  datatype NodeData = NodeData(addr: Option<string>, port: int, digest: Option<string>, clusterName: Option<string>)

  type RingNode = ListNode<NodeData>

  /** round_consistenthashing_node_gethash, with the hash function every RoundNode installs. */
  function Hash(n: RingNode): Option<string> {
    n.item.digest
  }
}
