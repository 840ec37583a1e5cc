/** The coding-tree node and the factory that numbers nodes in creation order. */
module DataStructures {
  import opened Wrappers

  /** A node of a coding tree. A leaf carries a symbol; an internal node carries
      children. `combinedName` is the concatenation of the leaf symbols below the
      node, left to right; `priorityTiebreaker` is the node's creation number. */
  datatype Node = Node(
    probability: real,
    symbol: Option<string>,
    leftChild: Option<Node>,
    rightChild: Option<Node>,
    priorityTiebreaker: int,
    combinedName: string)

  /** The comparison key of a node: only these two fields take part in ordering. */
  function SortKey(n: Node): (real, int)
  {
    (n.probability, n.priorityTiebreaker)
  }

  /** Lexicographic `<` on (probability, tiebreaker) pairs. */
  predicate KeyLess(a: (real, int), b: (real, int))
  {
    a.0 < b.0 || (a.0 == b.0 && a.1 < b.1)
  }

  /** `a < b` on nodes. */
  predicate Less(a: Node, b: Node)
  {
    KeyLess(SortKey(a), SortKey(b))
  }

  /** `<` on nodes is the lexicographic order of (probability, tiebreaker). */
  lemma LessIsLexicographic(a: Node, b: Node)
    ensures Less(a, b) <==>
      a.probability < b.probability ||
      (a.probability == b.probability && a.priorityTiebreaker < b.priorityTiebreaker)
  {
  }

  /** The symbol, the children and the name never influence the order. */
  lemma LessIgnoresPayload(a: Node, b: Node, a': Node, b': Node)
    requires SortKey(a') == SortKey(a) && SortKey(b') == SortKey(b)
    ensures Less(a', b') == Less(a, b)
  {
  }

  /** `<` is a strict order, total on nodes with different tiebreakers. */
  lemma LessIsStrictTotalOrder(a: Node, b: Node, c: Node)
    ensures !Less(a, a)
    ensures Less(a, b) ==> !Less(b, a)
    ensures Less(a, b) && Less(b, c) ==> Less(a, c)
    ensures a.priorityTiebreaker != b.priorityTiebreaker ==> Less(a, b) || Less(b, a)
  {
  }

  /** The module-global creation counter together with `create_node`. */
  class NodeFactory {
    var counter: int

    constructor ()
      ensures counter == 0
    {
      counter := 0;
    }

    /** Creates a node, numbering it with the incremented counter. */
    method CreateNode(probability: real, symbol: Option<string>, left: Option<Node>,
                      right: Option<Node>, combinedName: string) returns (n: Node)
      modifies this
      ensures counter == old(counter) + 1
      ensures n == Node(probability, symbol, left, right, counter, combinedName)
    {
      counter := counter + 1;
      n := Node(probability, symbol, left, right, counter, combinedName);
    }
  }
}
