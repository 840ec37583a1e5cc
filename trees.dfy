/** Shape properties of coding trees, used to state what the builders produce. */
module Trees {
  import opened Sequences
  import opened Dicts
  import opened DataStructures

  /** Every node is either a leaf without children or an internal node without a
      symbol and with two children. */
  ghost predicate WellFormed(n: Node)
  {
    if n.symbol.Some? then n.leftChild.None? && n.rightChild.None?
    else n.leftChild.Some? && n.rightChild.Some? &&
         WellFormed(n.leftChild.value) && WellFormed(n.rightChild.value)
  }

  /** The leaves as (symbol, probability) pairs, left to right (undefined parts
      of a malformed node contribute nothing). */
  function Leaves(n: Node): seq<(string, real)>
  {
    if n.symbol.Some? then [(n.symbol.value, n.probability)]
    else (if n.leftChild.Some? then Leaves(n.leftChild.value) else []) +
         (if n.rightChild.Some? then Leaves(n.rightChild.value) else [])
  }

  /** The leaf symbols, left to right. */
  function LeafSymbols(n: Node): seq<string>
  {
    KeysOf(Leaves(n))
  }

  /** The probability of a (symbol, probability) item. */
  function Probability(item: (string, real)): real
  {
    item.1
  }

  /** Every internal node weighs the sum of its children. */
  ghost predicate WeightsConsistent(n: Node)
  {
    n.symbol.Some? ||
    (n.leftChild.Some? && n.rightChild.Some? &&
     n.probability == n.leftChild.value.probability + n.rightChild.value.probability &&
     WeightsConsistent(n.leftChild.value) && WeightsConsistent(n.rightChild.value))
  }

  /** A leaf is named by its symbol and an internal node by its children's names. */
  ghost predicate NamesConsistent(n: Node)
  {
    if n.symbol.Some? then n.combinedName == n.symbol.value
    else n.leftChild.Some? && n.rightChild.Some? &&
         n.combinedName == n.leftChild.value.combinedName + n.rightChild.value.combinedName &&
         NamesConsistent(n.leftChild.value) && NamesConsistent(n.rightChild.value)
  }

  /** Every internal node was created after both of its children. */
  ghost predicate TiebreakersIncrease(n: Node)
  {
    n.symbol.Some? ||
    (n.leftChild.Some? && n.rightChild.Some? &&
     n.priorityTiebreaker > n.leftChild.value.priorityTiebreaker &&
     n.priorityTiebreaker > n.rightChild.value.priorityTiebreaker &&
     TiebreakersIncrease(n.leftChild.value) && TiebreakersIncrease(n.rightChild.value))
  }

  /** The concatenation of a list of strings. */
  function Concat(names: seq<string>): string
  {
    if names == [] then "" else names[0] + Concat(names[1..])
  }

  lemma {:induction false} ConcatAppend(a: seq<string>, b: seq<string>)
    ensures Concat(a + b) == Concat(a) + Concat(b)
  {
    if a != [] {
      assert (a + b)[1..] == a[1..] + b;
      ConcatAppend(a[1..], b);
    } else {
      assert a + b == b;
    }
  }

  /** A consistently weighted node weighs the sum of its leaves' probabilities. */
  lemma {:induction false} ProbabilityIsLeafSum(n: Node)
    requires WeightsConsistent(n)
    ensures n.probability == SumBy(Leaves(n), Probability)
  {
    if n.symbol.None? {
      var l, r := n.leftChild.value, n.rightChild.value;
      ProbabilityIsLeafSum(l);
      ProbabilityIsLeafSum(r);
      SumByConcat(Leaves(l), Leaves(r), Probability);
    }
  }

  /** A consistently named node is named by the concatenation of its leaf symbols. */
  lemma {:induction false} CombinedNameIsLeafConcat(n: Node)
    requires NamesConsistent(n)
    ensures n.combinedName == Concat(LeafSymbols(n))
  {
    if n.symbol.None? {
      var l, r := n.leftChild.value, n.rightChild.value;
      CombinedNameIsLeafConcat(l);
      CombinedNameIsLeafConcat(r);
      KeysOfConcat(Leaves(l), Leaves(r));
      ConcatAppend(LeafSymbols(l), LeafSymbols(r));
    } else {
      assert LeafSymbols(n) == [n.symbol.value];
      assert Concat([n.symbol.value]) == n.symbol.value + Concat([]);
    }
  }
}
