/** The node structure of a Huffman code tree: the private class
    HuffmanCode.HuffmanNode, its two constructors and its ordering. */
module HuffmanTree {

  /** A possibly absent node. `Null` plays the part of a null reference.
      A node whose two children are both `Null` is a leaf and carries a
      symbol in `data`; any other node routes bit 0 to `zeroLeft` and bit 1
      to `oneRight`. Frequencies are unbounded naturals. */
  datatype HuffmanNode =
    | Null
    | Node(data: int, frequency: nat, zeroLeft: HuffmanNode, oneRight: HuffmanNode)

  /** The leaf test every traversal of the tree uses: both children absent. */
  predicate IsLeaf(n: HuffmanNode)
  {
    n.Node? && n.zeroLeft.Null? && n.oneRight.Null?
  }

  /** A full tree: present, and every node is a leaf or has two present children. */
  predicate Full(t: HuffmanNode)
  {
    t.Node? && (IsLeaf(t) || (Full(t.zeroLeft) && Full(t.oneRight)))
  }

  /** The symbols stored in the leaves of `t`, with multiplicity. */
  function LeafSymbols(t: HuffmanNode): multiset<int>
  {
    match t
    case Null => multiset{}
    case Node(d, _, z, o) =>
      if z.Null? && o.Null? then multiset{d} else LeafSymbols(z) + LeafSymbols(o)
  }

  /** The node reached from `t` by following `path`: a '0' goes to the zero
      child and any other character to the one child; walking off the tree
      gives `Null`. */
  function Follow(t: HuffmanNode, path: string): HuffmanNode
    decreases |path|
  {
    if path == [] || t.Null? then t
    else Follow(if path[0] == '0' then t.zeroLeft else t.oneRight, path[1..])
  }

  /** The constructor HuffmanNode(data, frequency): a node with no children. */
  function NewLeaf(data: int, frequency: nat): (r: HuffmanNode)
    ensures IsLeaf(r) && Full(r)
    ensures LeafSymbols(r) == multiset{data}
    ensures r.data == data && r.frequency == frequency
  {
    Node(data, frequency, Null, Null)
  }

  /** The constructor HuffmanNode(node1, node2): an interior node with no
      symbol of its own whose weight is the sum of its two children's. */
  function Merge(node1: HuffmanNode, node2: HuffmanNode): (r: HuffmanNode)
    requires node1.Node? && node2.Node?
    ensures r.Node? && !IsLeaf(r) && r.zeroLeft == node1 && r.oneRight == node2
    ensures r.frequency == node1.frequency + node2.frequency
    ensures LeafSymbols(r) == LeafSymbols(node1) + LeafSymbols(node2)
  {
    Node(0, node1.frequency + node2.frequency, node1, node2)
  }

  /** compareTo: negative, zero or positive as this node's frequency is
      lower than, equal to or higher than the other's. Frequencies are
      compared and nothing else. */
  function CompareTo(self: HuffmanNode, other: HuffmanNode): (r: int)
    requires self.Node? && other.Node?
    ensures r < 0 <==> self.frequency < other.frequency
    ensures r == 0 <==> self.frequency == other.frequency
    ensures r > 0 <==> self.frequency > other.frequency
  {
    self.frequency - other.frequency
  }

  /** Every present tree holds at least one leaf. */
  lemma {:induction false} LeafSymbolsNonEmpty(t: HuffmanNode)
    requires t.Node?
    ensures |LeafSymbols(t)| >= 1
  {
    if !IsLeaf(t) {
      if t.zeroLeft.Node? {
        LeafSymbolsNonEmpty(t.zeroLeft);
      } else {
        LeafSymbolsNonEmpty(t.oneRight);
      }
    }
  }

  /** A full tree holding exactly one symbol is a single leaf. */
  lemma SingleSymbolIsLeaf(t: HuffmanNode)
    requires Full(t) && |LeafSymbols(t)| == 1
    ensures IsLeaf(t)
  {
    if !IsLeaf(t) {
      LeafSymbolsNonEmpty(t.zeroLeft);
      LeafSymbolsNonEmpty(t.oneRight);
    }
  }
}
