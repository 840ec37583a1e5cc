# Huffman and Shannon-Fano coding, modelled in Dafny

This project models the core of a small Python teaching tool. The tool builds a
binary prefix code for a table of symbol probabilities, one of two ways:

- **Huffman:** bottom-up, with a min-priority queue.
- **Shannon-Fano:** top-down, by splitting the probability-sorted list where the
  imbalance between the two halves stops shrinking.

It then walks the tree to assign codes ("0" = left, "1" = right, "0" for a lone
root leaf) and computes four metrics:

- the entropy H;
- the average code length L_avg;
- the Kraft sum K;
- the redundancy r = L_avg - H.

The model is organised as follows:

- `data_structures.dfy` (module `DataStructures`):
  - `Node` is the node record.
  - The module-global creation counter and `create_node` become the class
    `NodeFactory`, with a mutable `counter` field that the builders modify.
- `trees.dfy` (`Trees`): shape predicates on trees, such as well-formedness,
  weights, names and creation order, with lemmas about them.
- `huffman.dfy` (`Huffman`): `build_huffman_tree`.
  - The `heapq` list is a sorted sequence of nodes.
  - `heappush` is an ordered insert and `heappop` takes the head.
  - `BuildHuffmanTree` calls two imperative methods, `EnqueueLeaves` and
    `Reduce`. Each has one loop, proved against the queue invariant.
- `shannon_fano.dfy` (`ShannonFano`):
  - `_find_shannon_fano_split_index` is a method with a loop;
  - `_build_recursive` is a recursive method;
  - `build_shannon_fano_tree` is a method that sorts the entries and then
    calls it once.
- `codes.dfy` (`CodeGeneration`): `generate_codes_from_tree` and `traverse_tree`,
  proved against a reference table of leaf paths.
- `metrics.dfy` (`Metrics`): the four metric functions. Their loops are methods
  proved against sum functions.
- `dicts.dfy`, `sequences.dfy` and `wrappers.dfy` are the supporting modules:
  - a Python `dict` is an insertion-ordered list of entries with distinct keys;
  - a stable sort models Python's `sorted`;
  - `SumBy` sums over a sequence;
  - `Option` and `Result` are the wrapper types.

Modelling decisions:

- **Node names.** `algorithms.py` passes `combined_name=` to `create_node` and
  reads `.combined_name` back (algorithms.py:21, 44-53, 100, 120-128). However,
  neither `Node` (data_structures.py:21-37) nor `create_node`
  (data_structures.py:45-46) declares it, so the code as written cannot build
  a tree. The model follows the evident intent: `Node` has a `combinedName`
  field, and `CreateNode` takes it as an argument.
- **Empty inputs.** No metric rejects an empty table: its loop does not run
  and it returns 0, and the model does the same. Likewise the code does not
  reject non-positive probabilities:
  entropy skips them (metrics.py:25), and the average length counts them like
  any other probability.
- **Errors.**
  - `int(z[1:])` in each metric's sort key drops the first character of the
    name, whatever it is, and raises `ValueError` when the characters after
    it do not form an integer; the model returns
    `Failure(InvalidSymbolName(z))`.
  - `calculate_average_length` raises for a symbol without a code; the model
    returns `Failure(MissingCode(z))`.
- **Logarithm.** `math.log2` is a parameter `log2: real -> real` of the entropy
  operations.
- **Real arithmetic.** Probabilities are exact reals.

## Model

| member | source | states |
|---|---|---|
| DataStructures.Less | data_structures.py:7-37 | the generated `__lt__`: defined as the lexicographic comparison of the sort key (probability, creation number); its properties are the three lemmas below |
| DataStructures.LessIsLexicographic | data_structures.py:7-37 | node `<` compares the probability first, then the creation number |
| DataStructures.LessIgnoresPayload | data_structures.py:26-30 | the symbol, the children and the name never affect the order (`compare=False`) |
| DataStructures.LessIsStrictTotalOrder | data_structures.py:7-37 | `<` is irreflexive, asymmetric and transitive; it is total on nodes with different creation numbers |
| DataStructures.NodeFactory.constructor | data_structures.py:42 | the creation counter starts at 0 |
| DataStructures.NodeFactory.CreateNode | data_structures.py:45-60 | the counter goes up by one; the new node carries the new counter value and exactly the given fields |
| Trees.ProbabilityIsLeafSum | algorithms.py:47 | in a tree where every parent weighs the sum of its children, the root weighs the sum of its leaf probabilities |
| Trees.CombinedNameIsLeafConcat | algorithms.py:44-53 | when every parent's name is its children's names joined left to right, the root's name is its leaf symbols concatenated in order |
| Dicts.Get | metrics.py:55 | `d.get(k)` is `None` exactly when `k` is not a key; otherwise it is the value stored under `k` |
| Dicts.Put | algorithms.py:144 | `d[k] = v` stores `v` under `k` and changes no other key; an existing key keeps its place, and a new key is appended last |
| Dicts.SumOverKeys | metrics.py:23-26 | summing a per-key term over the keys, by looking each one up, equals summing it over the entries |
| Dicts.DistinctKeysPermutation | algorithms.py:19-22 | any reordering of a dictionary's entries still has distinct keys |
| Sequences.SortBy | metrics.py:21 | `sorted(..., key=...)`: a stable insertion sort whose result is a permutation of its input |
| Sequences.SortByAscending | algorithms.py:88-92 | the sort's result is in non-decreasing key order |
| Sequences.SortByStable | algorithms.py:88-92 | the sort keeps the input order among items with equal keys |
| Sequences.SumByPermutation | metrics.py:21-26 | a sum does not depend on the order of its terms |
| Huffman.Push | algorithms.py:22 | `heapq.heappush`: the queue grows by exactly one node; `PushSplice` says where it goes |
| Huffman.InsertionPoint | algorithms.py:22 | `heappush` position: every earlier node is smaller than the new one, and the node at that position is not |
| Huffman.PushSplice | algorithms.py:22 | pushing leaves the queue unchanged apart from the new node inserted at its insertion point |
| Huffman.PushOrdered | algorithms.py:22 | pushing a node whose creation number is not yet in the queue keeps the queue strictly ordered |
| Huffman.PushLeaves | algorithms.py:56 | after a push, the queued trees hold the old leaves plus the new tree's leaves |
| Huffman.PushValid | algorithms.py:49-56 | pushing a freshly numbered well-shaped tree keeps the queue invariant: ordered, every tree well formed with consistent weights, names and ordering, and numbered no later than the counter |
| Huffman.PopTwo | algorithms.py:28-29 | the two nodes popped come in order, the first being the smallest; both are valid trees, and the rest of the queue is valid |
| Huffman.PopTwoLeaves | algorithms.py:28-29 | the leaves in the queue are those of the two popped trees followed by those of the rest |
| Huffman.MergedTree | algorithms.py:32-54 | the new parent puts the heavier tree left (on a tie, the one created earlier) and has the merged leaves, weight and name |
| Huffman.EnqueueLeafStep | algorithms.py:19-22 | each pass of the leaf loop keeps the queue valid and adds exactly the next entry to its leaves |
| Huffman.MergeStep | algorithms.py:25-56 | each merge keeps the queue valid and its multiset of leaves unchanged |
| Huffman.LastTree | algorithms.py:58 | the final tree holds every input entry, and weighs their total |
| Huffman.EnqueueLeaves | algorithms.py:19-22 | the leaf loop numbers one leaf per entry and leaves a valid queue holding every entry; every queued node is the leaf for entry i, numbered old counter + i + 1 in dictionary order |
| Huffman.EnqueueNumberedStep | algorithms.py:19-22 | one pass of the leaf loop keeps every queued node the leaf of its entry under that numbering |
| Huffman.PushKeeps | algorithms.py:22 | `heappush` adds only the new node: a property of every queued node and of the new one holds of every node afterwards |
| Huffman.Reduce | algorithms.py:25-56 | merging until one tree is left adds one node per merge, loses no leaf, keeps every leaf numbered by its entry, and numbers every merged node after the counter it started from |
| Huffman.MergeAfterStep | algorithms.py:44-56 | a parent created after the bound keeps every merged node in the queue numbered after it |
| Huffman.MergeNumbered | algorithms.py:28-56 | the new parent has the two popped trees as children, so every leaf in the queue stays numbered by its entry |
| Huffman.BuildHuffmanTree | algorithms.py:9-58 | `None` exactly for an empty table; otherwise a tree satisfying the builder's invariants, whose leaves are the input entries, each numbered by its dictionary position, whose merged nodes are all numbered after the last leaf, whose weight is their total, and for which 2n - 1 nodes were created |
| Huffman.LeafBeforeMergedOnTie | algorithms.py:19-36 | on a tie between a leaf and a merged tree, the leaf goes left, since every merged node is numbered after every leaf |
| Huffman.TieGoesToFirstEntry | algorithms.py:19-36 | for two entries of equal probability, a tree with that numbering and the tie rule has the first entry on the left |
| ShannonFano.FindSplitIndex | algorithms.py:61-79 | the answer is the first local minimum of the imbalance between the halves; it is 1 for fewer than two items |
| ShannonFano.FirstLocalMinUnique | algorithms.py:61-79 | that description has exactly one answer |
| ShannonFano.SplitExample | algorithms.py:65-79 | for weights 0.4, 0.35, 0.25 the split falls after the first item |
| ShannonFano.SortByProbability | algorithms.py:88-92 | the sorted list is a permutation of the entries in non-increasing probability |
| ShannonFano.SortByProbabilityStable | algorithms.py:88-92 | entries of equal probability keep their dictionary order (the filter on sort key -p is unchanged by the sort) |
| ShannonFano.BuildRecursive | algorithms.py:95-128 | `None` exactly for an empty group; otherwise a tree whose leaves are the group in order, each split at the first local minimum, weights and names consistent; the root is the last node created, and 2n - 1 nodes were created |
| ShannonFano.BuildShannonFanoTree | algorithms.py:81-131 | the Shannon-Fano tree of the sorted entries: its leaves are a permutation of the input, its weight is their total, and 2n - 1 nodes were created |
| CodeGeneration.Traverse | algorithms.py:140-147 | the recursive walk writes exactly what its functional form `Emit` gives into the given dictionary; `EmitAppends` ties that to the reference table `LeafCodes` |
| CodeGeneration.LeafCodesKeys | algorithms.py:140-147 | the reference table has one entry per leaf, in left-to-right order |
| CodeGeneration.LeafCodesExtendPath | algorithms.py:146-147 | every code extends the path so far and is binary and non-empty; the bit after the path is "0" for leaves under the left child and "1" for those under the right |
| CodeGeneration.LeafCodesPrefixFree | algorithms.py:140-147 | no code in the table is a prefix of another entry's code |
| CodeGeneration.LeafCodesDecode | algorithms.py:140-147 | following a leaf's code down from the node reaches that leaf's symbol |
| CodeGeneration.UniqueSymbolsSplit | algorithms.py:146-147 | with distinct symbols, the two subtrees have distinct symbols and share none |
| CodeGeneration.EmitAppends | algorithms.py:143-147 | when no leaf symbol is already in the dictionary, the walk appends the reference table to it |
| CodeGeneration.TableDecodes | algorithms.py:140-147 | below an internal root, every code decodes to its symbol |
| CodeGeneration.TableFromTree | algorithms.py:134-149 | for a well-formed tree with distinct symbols, the generated table is the reference table and a prefix-free code table for the tree |
| CodeGeneration.GenerateCodesFromTree | algorithms.py:134-149 | an empty table for no tree; otherwise, for a well-formed tree with distinct symbols, one non-empty binary code per leaf in order, prefix-free, each decoding to its symbol, and "0" for a lone leaf |
| Metrics.SymbolIndex | metrics.py:21 | `int(z[1:])` drops the first character, whatever it is, and succeeds exactly when the rest is an integer literal, with that integer's value |
| Metrics.ParseInt | metrics.py:21 | `int(z[1:])` succeeds exactly on an optional sign followed by at least one decimal digit, and gives the signed value of the digits |
| Metrics.SymbolIndexOfName | metrics.py:21 | the symbol name "z" + decimal(n) parses back to n |
| Metrics.FirstInvalidSymbol | metrics.py:21 | `None` when every name parses; otherwise the first name, in key order, that does not |
| Metrics.SortedSymbols | metrics.py:21 | fails with the first unparsable name; otherwise a permutation of the keys in ascending index order |
| Metrics.SortedSymbolsStable | metrics.py:21 | names with equal index keep their dictionary order |
| Metrics.CalculateEntropy | metrics.py:7-35 | fails exactly when a name does not parse, with that name; otherwise the result is -(sum of p * log2(p) over p > 0); 0 for an empty table |
| Metrics.EntropyUpdate | metrics.py:23-26 | one pass of the loop adds the next symbol's term, and nothing when p <= 0 |
| Metrics.EntropyIgnoresNonPositive | metrics.py:25 | adding a symbol of probability <= 0 leaves H unchanged |
| Metrics.EntropyNonNegative | metrics.py:7-35 | H >= 0 when every probability is at most 1 and log2 is non-positive on (0, 1] |
| Metrics.CalculateAverageLength | metrics.py:37-68 | a bad name fails with that name; otherwise it succeeds exactly when every symbol has a code, with the sum of p * len(code), and every failure is `MissingCode` naming the first uncoded symbol in sorted order; 0 for an empty table |
| Metrics.LengthUpdate | metrics.py:53-60 | one pass of the loop adds p * len(code) for the next symbol |
| Metrics.CodeMissing | metrics.py:55-57 | reaching a symbol without a code means not every symbol is coded, and it is the first such symbol |
| Metrics.CodesPresent | metrics.py:53-60 | finishing the loop means every symbol has a code |
| Metrics.AverageLengthIgnoresExtraCodes | metrics.py:53-60 | codes for symbols outside the table do not change L_avg |
| Metrics.CalculateKraftInequality | metrics.py:70-98 | fails exactly on the first bad name; otherwise the sum of 2^-len(code) over the table; 0 for an empty table |
| Metrics.KraftTermBounds | metrics.py:90 | each term lies in (0, 1], and is at most 1/2 for a non-empty code |
| Metrics.KraftOfLeafCodes | metrics.py:83-90 | the codes under a node reached by path p sum to 2^-len(p) |
| Metrics.TreeCodesKraft | main.py:124-127 | for a generated table, K = 1 for an internal root and 1/2 for a lone leaf, so the test K <= 1 always passes |
| Metrics.BuiltTreeCodes | main.py:124-127 | for either builder's tree: distinct symbols, a prefix-free table with one code per input symbol (so L_avg never hits a missing code), and K <= 1, with K = 1 once there are two symbols |
| Metrics.CalculateRedundancy | metrics.py:100-113 | H + r = L_avg |
| Metrics.RedundancyIsExcess | metrics.py:100-113 | with non-negative probabilities and every symbol coded, r is the sum over symbols of p * (len(code) + log2(p)) |

## Left out

- Input, output and display are not part of this model: `input_handler.py`,
  `random_probs.py`, `visualizer.py`, and `main.py` apart from the Kraft test
  at main.py:124-127.
- The formula strings each metric function returns, and `ROUND_DIGITS`, are
  left out because they are display text.
- Floating point is not modelled: probabilities and sums are exact reals.
  `math.isclose(k, 1.0)` in the Kraft test is modelled as an exact comparison,
  K <= 1.
- `math.log2` is an uninterpreted parameter. As a result, Gibbs' inequality, and
  with it r >= 0, is not proved.
- `heapq`'s array layout is not modelled. The queue is a sorted sequence with
  the same pop order; because all creation numbers differ, that order is fully
  determined.
- Metrics.ParseInt: Python's `int()` also accepts surrounding whitespace,
  underscores between digits, and non-ASCII digits. The model accepts only an
  optional sign followed by ASCII digits.
- The `TypeError` that the undeclared `combined_name` argument would raise is
  not modelled. The model adds the field instead, as described above.
- Huffman.BuildHuffmanTree: the Huffman tree's optimality (minimum average
  length) is not stated, and the contract does not fix the exact tree. It
  covers the builder's invariants and the leaves, each numbered by its
  dictionary position. Every merged node is numbered after every leaf, so
  ties between two leaves, and between a leaf and a merged tree, are pinned.
  It also covers the weight and the node count. Two things are not stated:
  which two trees each merge takes (the greedy choice), and the relative
  numbers of merged nodes. So a tie between two merged trees is not pinned.
