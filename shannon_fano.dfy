/** The top-down Shannon-Fano builder: sort by descending probability, then split
    each group recursively where the imbalance between the halves stops shrinking. */
module ShannonFano {
  import opened Wrappers
  import opened Sequences
  import opened Dicts
  import opened DataStructures
  import opened Trees

  function Abs(x: real): real
  {
    if x < 0.0 then -x else x
  }

  function TotalProbability(items: seq<(string, real)>): real
  {
    SumBy(items, Probability)
  }

  /** |left - right| when the first `i` items form the left group. */
  function Imbalance(items: seq<(string, real)>, i: nat): real
    requires i <= |items|
  {
    var left := TotalProbability(items[..i]);
    Abs(left - (TotalProbability(items) - left))
  }

  /** `k` is what `_find_shannon_fano_split_index` answers: 1 for fewer than two
      items; otherwise a position strictly inside the list such that the imbalance
      strictly decreases from position 1 up to `k` and does not decrease at `k + 1`. */
  ghost predicate IsFirstLocalMin(items: seq<(string, real)>, k: int)
  {
    if |items| <= 1 then k == 1
    else
      1 <= k <= |items| - 1 &&
      (forall j :: 1 <= j < k ==> Imbalance(items, j + 1) < Imbalance(items, j)) &&
      (k == |items| - 1 || Imbalance(items, k + 1) >= Imbalance(items, k))
  }

  /** `_find_shannon_fano_split_index`. `minDiff == None` stands for `float('inf')`. */
  method FindSplitIndex(sortedProbs: seq<(string, real)>) returns (k: int)
    ensures IsFirstLocalMin(sortedProbs, k)
  {
    var totalProb := TotalProbability(sortedProbs);
    var minDiff: Option<real> := None;
    var bestSplitIndex := 0;
    var currentLeftSum := 0.0;
    var i := 0;
    while i < |sortedProbs| - 1
      invariant 0 <= i <= |sortedProbs| && (|sortedProbs| >= 1 ==> i <= |sortedProbs| - 1)
      invariant currentLeftSum == TotalProbability(sortedProbs[..i])
      invariant bestSplitIndex == i
      invariant minDiff == if i == 0 then None else Some(Imbalance(sortedProbs, i))
      invariant forall j :: 1 <= j < i ==> Imbalance(sortedProbs, j + 1) < Imbalance(sortedProbs, j)
    {
      SumBySnoc(sortedProbs, i, Probability);
      currentLeftSum := currentLeftSum + sortedProbs[i].1;
      var diff := Abs(currentLeftSum - (totalProb - currentLeftSum));
      if minDiff.None? || diff < minDiff.value {
        minDiff := Some(diff);
        bestSplitIndex := i + 1;
      } else {
        break;
      }
      i := i + 1;
    }
    if bestSplitIndex == 0 {
      return 1;
    }
    return bestSplitIndex;
  }

  /** The first local minimum is unique, so IsFirstLocalMin specifies the answer
      completely. */
  lemma FirstLocalMinUnique(items: seq<(string, real)>, k1: int, k2: int)
    requires IsFirstLocalMin(items, k1) && IsFirstLocalMin(items, k2)
    ensures k1 == k2
  {
  }

  /** For the weights 0.4, 0.35, 0.25 the split falls after the first item. */
  lemma SplitExample(k: int)
    requires IsFirstLocalMin([("a", 0.4), ("b", 0.35), ("c", 0.25)], k)
    ensures k == 1
  {
    var items := [("a", 0.4), ("b", 0.35), ("c", 0.25)];
    assert items[..1] == [("a", 0.4)];
    assert items[..2] == [("a", 0.4), ("b", 0.35)];
    assert TotalProbability(items) == 1.0;
    assert Imbalance(items, 1) == 0.2;
    assert Imbalance(items, 2) == 0.5;
  }

  function NegatedProbability(item: (string, real)): real
  {
    -item.1
  }

  /** `sorted(probabilities.items(), key=lambda item: item[1], reverse=True)`:
      a stable sort by descending probability. The result is a permutation of
      the input in non-increasing order of probability. */
  function SortByProbability(items: seq<(string, real)>): (r: seq<(string, real)>)
    ensures multiset(r) == multiset(items)
    ensures forall i, j :: 0 <= i < j < |r| ==> r[i].1 >= r[j].1
  {
    SortByAscending(items, NegatedProbability);
    SortBy(items, NegatedProbability)
  }

  /** Items of equal probability `p` (sort key `-p`) keep their input order. */
  lemma SortByProbabilityStable(items: seq<(string, real)>, p: real)
    ensures FilterKey(SortByProbability(items), NegatedProbability, -p)
         == FilterKey(items, NegatedProbability, -p)
  {
    SortByStable(items, NegatedProbability, -p);
  }

  /** Every internal node splits its leaf list at the first local minimum. */
  ghost predicate SplitsAtFirstLocalMin(n: Node)
  {
    n.symbol.Some? ||
    (n.leftChild.Some? && n.rightChild.Some? &&
     IsFirstLocalMin(Leaves(n), |Leaves(n.leftChild.value)|) &&
     SplitsAtFirstLocalMin(n.leftChild.value) && SplitsAtFirstLocalMin(n.rightChild.value))
  }

  /** Everything the builder guarantees of the tree it returns for `items`. */
  ghost predicate ShannonFanoTree(n: Node, items: seq<(string, real)>)
  {
    WellFormed(n) && WeightsConsistent(n) && NamesConsistent(n) && TiebreakersIncrease(n) &&
    SplitsAtFirstLocalMin(n) && Leaves(n) == items
  }

  /** `_build_recursive`. */
  method BuildRecursive(factory: NodeFactory, currentProbsList: seq<(string, real)>)
    returns (node: Option<Node>)
    modifies factory
    decreases |currentProbsList|
    ensures node.None? <==> |currentProbsList| == 0
    ensures node.Some? ==> ShannonFanoTree(node.value, currentProbsList)
    ensures node.Some? ==> node.value.priorityTiebreaker == factory.counter
    ensures factory.counter == old(factory.counter) +
              (if |currentProbsList| == 0 then 0 else 2 * |currentProbsList| - 1)
  {
    if |currentProbsList| == 1 {
      var symbol, prob := currentProbsList[0].0, currentProbsList[0].1;
      var leaf := factory.CreateNode(prob, Some(symbol), None, None, symbol);
      return Some(leaf);
    }
    if |currentProbsList| == 0 {
      return None;
    }
    var splitIndex := FindSplitIndex(currentProbsList);
    var groupZero := currentProbsList[..splitIndex];
    var groupOne := currentProbsList[splitIndex..];
    var leftChild := BuildRecursive(factory, groupZero);
    var rightChild := BuildRecursive(factory, groupOne);
    var combinedProb := (if leftChild.Some? then leftChild.value.probability else 0.0) +
                        (if rightChild.Some? then rightChild.value.probability else 0.0);
    var leftName := if leftChild.Some? then leftChild.value.combinedName else "";
    var rightName := if rightChild.Some? then rightChild.value.combinedName else "";
    var parent := factory.CreateNode(combinedProb, None, leftChild, rightChild, leftName + rightName);
    assert currentProbsList == groupZero + groupOne;
    return Some(parent);
  }

  /** `build_shannon_fano_tree`. */
  method BuildShannonFanoTree(factory: NodeFactory, probabilities: Dict<real>) returns (root: Option<Node>)
    modifies factory
    ensures root.None? <==> |probabilities| == 0
    ensures root.Some? ==> ShannonFanoTree(root.value, SortByProbability(probabilities))
    ensures root.Some? ==> multiset(Leaves(root.value)) == multiset(probabilities)
    ensures root.Some? ==> root.value.probability == SumBy(probabilities, Probability)
    ensures factory.counter ==
            old(factory.counter) + (if |probabilities| == 0 then 0 else 2 * |probabilities| - 1)
  {
    var sortedProbs := SortByProbability(probabilities);
    assert |sortedProbs| == |probabilities| by {
      assert |multiset(sortedProbs)| == |multiset(probabilities)|;
    }
    root := BuildRecursive(factory, sortedProbs);
    if root.Some? {
      assert Leaves(root.value) == sortedProbs;
      ProbabilityIsLeafSum(root.value);
      SumByPermutation(sortedProbs, probabilities, Probability);
    }
  }
}
