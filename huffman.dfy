/** The bottom-up Huffman builder over a min-priority queue ordered by
    (probability, tiebreaker). */
module Huffman {
  import opened Wrappers
  import opened Sequences
  import opened Dicts
  import opened DataStructures
  import opened Trees

  /** The queue is in strictly increasing node order, so its head is the node
      `heapq.heappop` returns. */
  ghost predicate QueueOrdered(q: seq<Node>)
  {
    forall i, j :: 0 <= i < j < |q| ==> Less(q[i], q[j])
  }

  /** `heapq.heappush`: inserts `x` ahead of the first node that is not smaller. */
  function Push(q: seq<Node>, x: Node): (r: seq<Node>)
    ensures |r| == |q| + 1
  {
    if q == [] || !Less(q[0], x) then [x] + q
    else [q[0]] + Push(q[1..], x)
  }

  /** Where `heapq.heappush` puts `x`: just past the nodes smaller than it. */
  function InsertionPoint(q: seq<Node>, x: Node): (p: nat)
    ensures p <= |q|
    ensures forall i :: 0 <= i < p ==> Less(q[i], x)
    ensures p < |q| ==> !Less(q[p], x)
  {
    if q == [] || !Less(q[0], x) then 0
    else
      var p' := InsertionPoint(q[1..], x);
      assert forall i :: 1 <= i < p' + 1 ==> q[i] == q[1..][i - 1];
      p' + 1
  }

  /** Pushing splices `x` in at its insertion point. */
  lemma {:induction false} PushSplice(q: seq<Node>, x: Node)
    ensures Push(q, x) == q[..InsertionPoint(q, x)] + [x] + q[InsertionPoint(q, x)..]
  {
    if q == [] || !Less(q[0], x) {
      assert q[..0] == [] && q[0..] == q;
    } else {
      var rest := q[1..];
      PushSplice(rest, x);
      assert q == [q[0]] + rest;
      ConsSplice(q[0], rest, x, InsertionPoint(rest, x));
    }
  }

  /** Splicing into a sequence behind its head is splicing into its tail. */
  lemma ConsSplice<T>(h: T, rest: seq<T>, x: T, p: nat)
    requires p <= |rest|
    ensures ([h] + rest)[..p + 1] + [x] + ([h] + rest)[p + 1..] == [h] + (rest[..p] + [x] + rest[p..])
  {
    var q := [h] + rest;
    assert q[..p + 1] == [h] + rest[..p];
    assert q[p + 1..] == rest[p..];
  }

  /** Pushing a node whose tiebreaker no queued node shares keeps the queue ordered. */
  lemma PushOrdered(q: seq<Node>, x: Node)
    requires QueueOrdered(q)
    requires forall k :: 0 <= k < |q| ==> q[k].priorityTiebreaker != x.priorityTiebreaker
    ensures QueueOrdered(Push(q, x))
  {
    var p := InsertionPoint(q, x);
    var r := Push(q, x);
    PushSplice(q, x);
    if p < |q| {
      LessIsStrictTotalOrder(q[p], x, x);
    }
    forall i, j | 0 <= i < j < |r| ensures Less(r[i], r[j]) {
      if j < p {
        assert r[i] == q[i] && r[j] == q[j];
      } else if j == p {
        assert r[i] == q[i] && r[j] == x;
      } else if i < p {
        assert r[i] == q[i] && r[j] == q[j - 1];
        LessIsStrictTotalOrder(q[i], x, q[j - 1]);
        if j - 1 > p {
          LessIsStrictTotalOrder(x, q[p], q[j - 1]);
        }
      } else if i == p {
        assert r[i] == x && r[j] == q[j - 1];
        if j - 1 > p {
          LessIsStrictTotalOrder(x, q[p], q[j - 1]);
        }
      } else {
        assert r[i] == q[i - 1] && r[j] == q[j - 1];
      }
    }
  }

  /** The leaves of all queued trees. */
  function QueueLeaves(q: seq<Node>): seq<(string, real)>
  {
    if q == [] then [] else Leaves(q[0]) + QueueLeaves(q[1..])
  }

  lemma {:induction false} PushLeaves(q: seq<Node>, x: Node)
    ensures multiset(QueueLeaves(Push(q, x))) == multiset(QueueLeaves(q)) + multiset(Leaves(x))
  {
    if q != [] && Less(q[0], x) {
      var tail := Push(q[1..], x);
      assert ([q[0]] + tail)[1..] == tail;
      PushLeaves(q[1..], x);
    } else {
      assert ([x] + q)[1..] == q;
    }
  }

  /** The Huffman left/right rule: the left child is at least as heavy as the
      right one, and on an exact tie it is the one created earlier. */
  ghost predicate HuffmanOrdered(n: Node)
  {
    n.symbol.Some? ||
    (n.leftChild.Some? && n.rightChild.Some? &&
     var l, r := n.leftChild.value, n.rightChild.value;
     l.probability >= r.probability &&
     (l.probability == r.probability ==> l.priorityTiebreaker < r.priorityTiebreaker) &&
     HuffmanOrdered(l) && HuffmanOrdered(r))
  }

  /** Everything the builder keeps true of each tree it has queued. */
  ghost predicate HuffmanTree(n: Node)
  {
    WellFormed(n) && WeightsConsistent(n) && NamesConsistent(n) &&
    HuffmanOrdered(n) && TiebreakersIncrease(n)
  }

  /** What holds of the queue between steps, given the factory's counter. */
  ghost predicate QueueValid(q: seq<Node>, counter: int)
  {
    QueueOrdered(q) &&
    (forall i :: 0 <= i < |q| ==> q[i].priorityTiebreaker <= counter && HuffmanTree(q[i]))
  }

  /** Pushing a freshly created well-shaped tree keeps the queue valid. */
  lemma PushValid(q: seq<Node>, x: Node, counter: int)
    requires QueueValid(q, counter - 1)
    requires x.priorityTiebreaker == counter && HuffmanTree(x)
    ensures QueueValid(Push(q, x), counter)
    ensures multiset(QueueLeaves(Push(q, x))) == multiset(QueueLeaves(q)) + multiset(Leaves(x))
  {
    PushOrdered(q, x);
    PushLeaves(q, x);
    var p := InsertionPoint(q, x);
    var r := Push(q, x);
    PushSplice(q, x);
    forall i | 0 <= i < |r| ensures r[i].priorityTiebreaker <= counter && HuffmanTree(r[i]) {
      if i < p {
        assert r[i] == q[i];
      } else if i > p {
        assert r[i] == q[i - 1];
      }
    }
  }

  /** Popping the two smallest nodes leaves a valid queue; the two popped
      nodes are in order and are trees the builder made. */
  lemma PopTwo(q: seq<Node>, counter: int)
    requires QueueValid(q, counter) && |q| >= 2
    ensures Less(q[0], q[1])
    ensures HuffmanTree(q[0]) && HuffmanTree(q[1])
    ensures q[0].priorityTiebreaker <= counter && q[1].priorityTiebreaker <= counter
    ensures QueueValid(q[2..], counter)
  {
    var rest := q[2..];
    assert QueueOrdered(rest) by {
      forall i, j | 0 <= i < j < |rest| ensures Less(rest[i], rest[j]) {
        assert rest[i] == q[i + 2] && rest[j] == q[j + 2];
      }
    }
    forall i | 0 <= i < |rest| ensures rest[i].priorityTiebreaker <= counter && HuffmanTree(rest[i]) {
      assert rest[i] == q[i + 2];
    }
  }

  /** The leaves of the queue are those of the two popped trees and the rest. */
  lemma PopTwoLeaves(q: seq<Node>)
    requires |q| >= 2
    ensures QueueLeaves(q) == Leaves(q[0]) + Leaves(q[1]) + QueueLeaves(q[2..])
  {
    var rest := q[1..];
    assert rest[0] == q[1] && rest[1..] == q[2..];
    var a, b, c := Leaves(q[0]), Leaves(q[1]), QueueLeaves(q[2..]);
    assert QueueLeaves(rest) == b + c;
    assert QueueLeaves(q) == a + QueueLeaves(rest);
    ConcatAssociative(a, b, c);
  }

  lemma ConcatAssociative<T>(a: seq<T>, b: seq<T>, c: seq<T>)
    ensures a + (b + c) == a + b + c
  {
    assert forall i :: 0 <= i < |a| + |b| + |c| ==> (a + (b + c))[i] == (a + b + c)[i];
  }

  /** The parent built from the two popped nodes keeps the builder's tree invariants. */
  lemma MergedTree(node1: Node, node2: Node, higher: Node, lower: Node, parent: Node, counter: int)
    requires Less(node1, node2) && HuffmanTree(node1) && HuffmanTree(node2)
    requires node1.priorityTiebreaker < counter && node2.priorityTiebreaker < counter
    requires if node1.probability >= node2.probability then higher == node1 && lower == node2
             else higher == node2 && lower == node1
    requires parent == Node(higher.probability + lower.probability, None, Some(higher), Some(lower),
                            counter, higher.combinedName + lower.combinedName)
    ensures HuffmanTree(parent)
    ensures Leaves(parent) == Leaves(higher) + Leaves(lower)
  {
  }

  /** Joining two sequences in either order gives the same multiset. */
  lemma JoinEitherOrder<T>(a: seq<T>, b: seq<T>, x: seq<T>, y: seq<T>)
    requires (x == a && y == b) || (x == b && y == a)
    ensures multiset(x + y) == multiset(a) + multiset(b)
  {
  }

  /** One pass of the leaf loop: the leaf for entry `i` joins the queue. */
  lemma EnqueueLeafStep(probabilities: seq<(string, real)>, i: nat, queue: seq<Node>, leaf: Node, counter: int)
    requires i < |probabilities|
    requires QueueValid(queue, counter - 1)
    requires multiset(QueueLeaves(queue)) == multiset(probabilities[..i])
    requires leaf == Node(probabilities[i].1, Some(probabilities[i].0), None, None, counter, probabilities[i].0)
    ensures QueueValid(Push(queue, leaf), counter)
    ensures multiset(QueueLeaves(Push(queue, leaf))) == multiset(probabilities[..i + 1])
  {
    LeafTree(leaf);
    PushValid(queue, leaf, counter);
    PrefixMultiset(probabilities, i);
  }

  lemma LeafTree(leaf: Node)
    requires leaf.symbol.Some? && leaf.leftChild.None? && leaf.rightChild.None?
    requires leaf.combinedName == leaf.symbol.value
    ensures HuffmanTree(leaf) && Leaves(leaf) == [(leaf.symbol.value, leaf.probability)]
  {
  }

  lemma PrefixMultiset<T>(s: seq<T>, i: nat)
    requires i < |s|
    ensures multiset(s[..i + 1]) == multiset(s[..i]) + multiset{s[i]}
  {
    assert s[..i + 1] == s[..i] + [s[i]];
  }

  /** One pass of the merge loop: the two smallest trees are replaced by their parent. */
  lemma MergeStep(queue: seq<Node>, parent: Node, counter: int, leaves: multiset<(string, real)>)
    requires |queue| >= 2 && QueueValid(queue, counter - 1)
    requires multiset(QueueLeaves(queue)) == leaves
    requires var node1, node2 := queue[0], queue[1];
             var higher := if node1.probability >= node2.probability then node1 else node2;
             var lower := if node1.probability >= node2.probability then node2 else node1;
             parent == Node(higher.probability + lower.probability, None, Some(higher), Some(lower),
                            counter, higher.combinedName + lower.combinedName)
    ensures QueueValid(Push(queue[2..], parent), counter)
    ensures multiset(QueueLeaves(Push(queue[2..], parent))) == leaves
  {
    PopTwo(queue, counter - 1);
    PopTwoLeaves(queue);
    var node1, node2 := queue[0], queue[1];
    var rest := queue[2..];
    assert multiset(QueueLeaves(queue)) ==
           multiset(Leaves(node1)) + multiset(Leaves(node2)) + multiset(QueueLeaves(rest));
    var higher := if node1.probability >= node2.probability then node1 else node2;
    var lower := if node1.probability >= node2.probability then node2 else node1;
    MergedTree(node1, node2, higher, lower, parent, counter);
    JoinEitherOrder(Leaves(node1), Leaves(node2), Leaves(higher), Leaves(lower));
    PushValid(queue[2..], parent, counter);
  }

  /** When one tree is left it holds every input leaf, and it weighs their total. */
  lemma LastTree(queue: seq<Node>, counter: int, probabilities: seq<(string, real)>)
    requires |queue| == 1 && QueueValid(queue, counter)
    requires multiset(QueueLeaves(queue)) == multiset(probabilities)
    ensures HuffmanTree(queue[0])
    ensures multiset(Leaves(queue[0])) == multiset(probabilities)
    ensures queue[0].probability == SumBy(probabilities, Probability)
  {
    var top := queue[0];
    assert QueueLeaves(queue) == Leaves(top) + [] by {
      assert queue == [top];
    }
    ProbabilityIsLeafSum(top);
    SumByPermutation(Leaves(top), probabilities, Probability);
  }

  /** `n` is the leaf the leaf loop creates for entry `i`, where `i` is read off
      its creation number: the counter stood at `start` before the loop, so
      entry `i` is numbered `start + i + 1`. */
  ghost predicate IsEntryLeaf(n: Node, entries: seq<(string, real)>, start: int)
  {
    var i := n.priorityTiebreaker - start - 1;
    0 <= i < |entries| &&
    n == Node(entries[i].1, Some(entries[i].0), None, None, start + i + 1, entries[i].0)
  }

  /** Every leaf of `n` is the leaf created for its entry, so leaves are numbered
      in dictionary order. */
  ghost predicate LeavesNumbered(n: Node, entries: seq<(string, real)>, start: int)
  {
    if n.symbol.Some? then IsEntryLeaf(n, entries, start)
    else (n.leftChild.Some? ==> LeavesNumbered(n.leftChild.value, entries, start)) &&
         (n.rightChild.Some? ==> LeavesNumbered(n.rightChild.value, entries, start))
  }

  /** Every queued node is the leaf created for its entry. */
  ghost predicate QueueOfEntryLeaves(q: seq<Node>, entries: seq<(string, real)>, start: int)
  {
    forall k :: 0 <= k < |q| ==> IsEntryLeaf(q[k], entries, start)
  }

  /** One pass of the leaf loop keeps every queued node an entry's leaf. */
  lemma EnqueueNumberedStep(entries: seq<(string, real)>, i: nat, queue: seq<Node>, leaf: Node, start: int)
    requires i < |entries| && QueueOfEntryLeaves(queue, entries, start)
    requires leaf == Node(entries[i].1, Some(entries[i].0), None, None, start + i + 1, entries[i].0)
    ensures QueueOfEntryLeaves(Push(queue, leaf), entries, start)
  {
    assert IsEntryLeaf(leaf, entries, start);
    PushKeeps(queue, leaf, n => IsEntryLeaf(n, entries, start));
  }

  /** A queue of entry leaves is numbered. */
  lemma EntryLeavesNumbered(q: seq<Node>, entries: seq<(string, real)>, start: int, bound: int)
    requires QueueOfEntryLeaves(q, entries, start)
    ensures QueueNumbered(q, entries, start) && QueueMergedAfter(q, bound)
  {
    forall k | 0 <= k < |q| ensures LeavesNumbered(q[k], entries, start) && MergedAfter(q[k], bound) {
      assert IsEntryLeaf(q[k], entries, start);
    }
  }

  ghost predicate QueueNumbered(q: seq<Node>, entries: seq<(string, real)>, start: int)
  {
    forall k :: 0 <= k < |q| ==> LeavesNumbered(q[k], entries, start)
  }

  /** Pushing keeps a property that holds of every queued node and of the new one. */
  lemma PushKeeps(q: seq<Node>, x: Node, P: Node -> bool)
    requires forall k :: 0 <= k < |q| ==> P(q[k])
    requires P(x)
    ensures forall k :: 0 <= k < |Push(q, x)| ==> P(Push(q, x)[k])
  {
    var p := InsertionPoint(q, x);
    var r := Push(q, x);
    PushSplice(q, x);
    forall k | 0 <= k < |r| ensures P(r[k]) {
      if k < p {
        assert r[k] == q[k];
      } else if k > p {
        assert r[k] == q[k - 1];
      }
    }
  }

  /** A merge keeps every leaf in the queue numbered by its entry. */
  lemma MergeNumbered(queue: seq<Node>, parent: Node, entries: seq<(string, real)>, start: int)
    requires |queue| >= 2 && QueueNumbered(queue, entries, start)
    requires parent.symbol.None?
    requires (parent.leftChild == Some(queue[0]) && parent.rightChild == Some(queue[1])) ||
             (parent.leftChild == Some(queue[1]) && parent.rightChild == Some(queue[0]))
    ensures QueueNumbered(Push(queue[2..], parent), entries, start)
  {
    var rest := queue[2..];
    forall k | 0 <= k < |rest| ensures LeavesNumbered(rest[k], entries, start) {
      assert rest[k] == queue[k + 2];
    }
    assert LeavesNumbered(queue[0], entries, start) && LeavesNumbered(queue[1], entries, start);
    PushKeeps(rest, parent, n => LeavesNumbered(n, entries, start));
  }

  /** Every internal node of `n` was created after creation number `bound`. */
  ghost predicate MergedAfter(n: Node, bound: int)
  {
    n.symbol.Some? ||
    (n.priorityTiebreaker > bound &&
     (n.leftChild.Some? ==> MergedAfter(n.leftChild.value, bound)) &&
     (n.rightChild.Some? ==> MergedAfter(n.rightChild.value, bound)))
  }

  ghost predicate QueueMergedAfter(q: seq<Node>, bound: int)
  {
    forall k :: 0 <= k < |q| ==> MergedAfter(q[k], bound)
  }

  /** A parent created after `bound` keeps every merged node in the queue later than `bound`. */
  lemma MergeAfterStep(queue: seq<Node>, parent: Node, bound: int)
    requires |queue| >= 2 && QueueMergedAfter(queue, bound)
    requires parent.symbol.None? && parent.priorityTiebreaker > bound
    requires (parent.leftChild == Some(queue[0]) && parent.rightChild == Some(queue[1])) ||
             (parent.leftChild == Some(queue[1]) && parent.rightChild == Some(queue[0]))
    ensures QueueMergedAfter(Push(queue[2..], parent), bound)
  {
    var rest := queue[2..];
    forall k | 0 <= k < |rest| ensures MergedAfter(rest[k], bound) {
      assert rest[k] == queue[k + 2];
    }
    assert MergedAfter(queue[0], bound) && MergedAfter(queue[1], bound);
    PushKeeps(rest, parent, n => MergedAfter(n, bound));
  }

  /** On a tie between a leaf and a merged tree, the leaf goes left: every leaf
      is numbered within the leaf loop and every merged node after it. */
  lemma LeafBeforeMergedOnTie(n: Node, entries: seq<(string, real)>, start: int)
    requires HuffmanTree(n) && n.symbol.None?
    requires LeavesNumbered(n, entries, start) && MergedAfter(n, start + |entries|)
    requires n.leftChild.value.probability == n.rightChild.value.probability
    requires n.leftChild.value.symbol.Some? != n.rightChild.value.symbol.Some?
    ensures n.leftChild.value.symbol.Some?
  {
  }

  /** With two entries of equal probability, the leaf loop's numbering and the
      tie rule put the first entry on the left, whatever the tree's shape. */
  lemma TieGoesToFirstEntry(n: Node, a: string, b: string, w: real)
    requires HuffmanTree(n) && n.symbol.None?
    requires LeavesNumbered(n, [(a, w), (b, w)], 0)
    requires |Leaves(n)| == 2
    ensures n.leftChild.value.symbol == Some(a) && n.rightChild.value.symbol == Some(b)
  {
    var l, r := n.leftChild.value, n.rightChild.value;
    LeavesNonEmpty(l);
    LeavesNonEmpty(r);
    if l.symbol.None? {
      LeavesNonEmpty(l.leftChild.value);
      LeavesNonEmpty(l.rightChild.value);
      assert false;
    }
    if r.symbol.None? {
      LeavesNonEmpty(r.leftChild.value);
      LeavesNonEmpty(r.rightChild.value);
      assert false;
    }
    assert IsEntryLeaf(l, [(a, w), (b, w)], 0) && IsEntryLeaf(r, [(a, w), (b, w)], 0);
  }

  /** A well-formed tree has at least one leaf. */
  lemma {:induction false} LeavesNonEmpty(n: Node)
    requires WellFormed(n)
    ensures |Leaves(n)| >= 1
  {
    if n.symbol.None? {
      LeavesNonEmpty(n.leftChild.value);
    }
  }

  /** The leaf loop of `build_huffman_tree`: one leaf per entry, pushed in
      dictionary order. */
  method EnqueueLeaves(factory: NodeFactory, probabilities: seq<(string, real)>)
    returns (queue: seq<Node>)
    modifies factory
    ensures factory.counter == old(factory.counter) + |probabilities|
    ensures |queue| == |probabilities|
    ensures QueueValid(queue, factory.counter)
    ensures multiset(QueueLeaves(queue)) == multiset(probabilities)
    ensures QueueOfEntryLeaves(queue, probabilities, old(factory.counter))
  {
    queue := [];
    ghost var start := factory.counter;
    for i := 0 to |probabilities|
      invariant factory.counter == start + i && |queue| == i
      invariant QueueValid(queue, factory.counter)
      invariant multiset(QueueLeaves(queue)) == multiset(probabilities[..i])
      invariant QueueOfEntryLeaves(queue, probabilities, start)
    {
      var symbol, prob := probabilities[i].0, probabilities[i].1;
      var leaf := factory.CreateNode(prob, Some(symbol), None, None, symbol);
      EnqueueLeafStep(probabilities, i, queue, leaf, factory.counter);
      EnqueueNumberedStep(probabilities, i, queue, leaf, start);
      queue := Push(queue, leaf);
    }
    assert probabilities[..|probabilities|] == probabilities;
  }

  /** The reduction loop of `build_huffman_tree`: merge the two lightest trees
      until one is left. */
  method Reduce(factory: NodeFactory, start: seq<Node>, ghost leaves: multiset<(string, real)>,
                ghost entries: seq<(string, real)>, ghost first: int)
    returns (queue: seq<Node>)
    requires |start| >= 1 && QueueValid(start, factory.counter)
    requires multiset(QueueLeaves(start)) == leaves
    requires QueueNumbered(start, entries, first)
    requires QueueMergedAfter(start, factory.counter)
    modifies factory
    ensures factory.counter == old(factory.counter) + |start| - 1
    ensures |queue| == 1 && QueueValid(queue, factory.counter)
    ensures multiset(QueueLeaves(queue)) == leaves
    ensures QueueNumbered(queue, entries, first)
    ensures QueueMergedAfter(queue, old(factory.counter))
  {
    queue := start;
    while |queue| > 1
      invariant 1 <= |queue| <= |start|
      invariant factory.counter == old(factory.counter) + |start| - |queue|
      invariant QueueValid(queue, factory.counter)
      invariant multiset(QueueLeaves(queue)) == leaves
      invariant QueueNumbered(queue, entries, first)
      invariant QueueMergedAfter(queue, old(factory.counter))
      decreases |queue|
    {
      ghost var before := queue;
      var node1 := queue[0];
      var node2 := queue[1];
      queue := queue[2..];

      var higher, lower;
      if node1.probability >= node2.probability {
        higher, lower := node1, node2;
      } else {
        higher, lower := node2, node1;
      }
      var parent := factory.CreateNode(higher.probability + lower.probability, None,
                                       Some(higher), Some(lower),
                                       higher.combinedName + lower.combinedName);
      MergeStep(before, parent, factory.counter, leaves);
      MergeNumbered(before, parent, entries, first);
      MergeAfterStep(before, parent, old(factory.counter));
      queue := Push(queue, parent);
    }
  }

  /** `build_huffman_tree`. */
  method BuildHuffmanTree(factory: NodeFactory, probabilities: Dict<real>) returns (root: Option<Node>)
    modifies factory
    ensures root.None? <==> |probabilities| == 0
    ensures root.Some? ==> HuffmanTree(root.value)
    ensures root.Some? ==> multiset(Leaves(root.value)) == multiset(probabilities)
    ensures root.Some? ==> root.value.probability == SumBy(probabilities, Probability)
    ensures root.Some? ==> LeavesNumbered(root.value, probabilities, old(factory.counter))
    ensures root.Some? ==> MergedAfter(root.value, old(factory.counter) + |probabilities|)
    ensures factory.counter ==
            old(factory.counter) + (if |probabilities| == 0 then 0 else 2 * |probabilities| - 1)
  {
    if |probabilities| == 0 {
      return None;
    }
    ghost var first := factory.counter;
    var queue := EnqueueLeaves(factory, probabilities);
    EntryLeavesNumbered(queue, probabilities, first, factory.counter);
    queue := Reduce(factory, queue, multiset(probabilities), probabilities, first);
    LastTree(queue, factory.counter, probabilities);
    root := Some(queue[0]);
  }
}
