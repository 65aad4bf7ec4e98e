# Huffman codec engine, modelled in Dafny

This project models the codec engine of a Huffman compressor for 7-bit text, the class
`HuffmanCompressionUtilities`. The engine:

- takes a 128-entry weight table, where symbol 0 is the end-of-data marker;
- fills a priority queue with one leaf per symbol it keeps, with zero weights dropped under
  the `minimize` policy;
- merges the two smallest nodes until one node, the root, is left. The order is a comparator
  on weight, then ordinal value, then creation id;
- writes each leaf's root-to-leaf path into a code table, '0' for left and '1' for right;
- decodes one symbol at a time by walking the tree bit by bit. It counts the bits consumed
  in `numCharsDecoded` and returns -1 when the bits run out at an internal node.

The project has three modules:

- `HuffmanNode` (`huffman_node.dfy`) is the node. `HuffmanTreeNode` is a value
  `datatype Tree = Leaf(ord, weight, id) | Node(ord, weight, id, left, right)`. The module
  also holds the comparator, Java `int` wrap-around (`Wrap32`), and what a built tree keeps
  invariant: weights summed upward and ids increasing upward.
- `HuffmanCodes` (`huffman_codes.dfy`) holds codes and decoding as pure functions:
  - the code of a symbol, `CodeOf`, which is the path `createHuffmanCodes` writes;
  - the walk `traverseTree` performs, `Walk`, and the byte it returns, `Emit`;
  - prefix-freeness, the decode round trip, and what the -1 sentinel means.
- `HuffmanCompression` (`huffman_compression.dfy`) is the class with its fields `queue`,
  `root`, `encodeMap`, `weights` and `numCharsDecoded`. Its methods update those fields in
  place. Each method is proved against the functions above and the lemmas about them:
  - the starting queue `InitialQueue`;
  - the greedy merge as pure functions: `MinPos` is the node `remove()` hands out, `Step`
    is one pass (remove the two smallest, append their parent), `Merge` repeats passes
    down to one node, and `HuffmanTree` is `Merge` applied to the starting queue;
  - that merging keeps the multiset of leaves (`LeafBag`);
  - what the finished tree is (`BuiltFrom`).

The model's choices:

- **Queue.** The priority queue is a sequence. `remove()` hands out its minimum under the
  comparator, found by a linear scan (`MinIndex`), which is the position `MinPos` names.
  `buildHuffmanTree` is modelled starting from an empty queue. That holds when
  `initializeHuffmanQueue` is reached only through `buildHuffmanTree` and no earlier call threw
  midway; see "## Left out". At all times every queued node is well formed, was created
  before the counter's current value, and has a distinct id (`Valid`).
- **Creation ids.** `HuffmanTreeNode` is not part of this model. Its creation id is modelled
  as the field `nodeCount`, the id the next node gets.
- **Internal-node ordinal.** The ordinal value an internal node reports is not visible. It is
  a function `mergedOrd` of the two children, fixed when the engine is constructed.
- **Comparator.** It never returns 0, and `compare(a, a)` is -1. So `Precedes` ("the
  comparator does not put `a` after `b`") is a total preorder. It is strict on nodes with
  distinct ids, and the queue keeps every id distinct, so the node handed out first is
  unique (`MinimumIsUnique`).
- **Leaf 0.** It is always enqueued with weight 1. `weights[0]` is never read
  (src/HuffmanCompressionUtilities.java:118).
- **Weight overflow.** Weights are Java `int`s. A merged node's weight is the 32-bit
  wrap-around of the children's sum, so the root's weight is the wrapped total of the leaf
  weights.
- **Code table.** An entry is `Option<seq<char>>`, with `None` standing for Java's `null`.
  Bit strings are `seq<char>`.

## Model

| member | source | states |
|---|---|---|
| HuffmanNode.Wrap32 | src/HuffmanCompressionUtilities.java:173 | Java `int` addition: the result is a 32-bit value congruent to the exact sum modulo 2^32, and equals it when the sum fits |
| HuffmanNode.WrapAdd | src/HuffmanCompressionUtilities.java:173 | adding already-wrapped weights and wrapping again gives the wrapped exact sum, so wrap-around at each merge is the same as wrap-around once at the root |
| HuffmanNode.Compare | src/HuffmanCompressionUtilities.java:44-56 | the comparator returns only 1 or -1, and -1 exactly when (weight, ordinal, id) of the first node is lexicographically at most that of the second (never 0, so equal keys give -1) |
| HuffmanNode.ComparatorIsTotalOrder | src/HuffmanCompressionUtilities.java:44-56 | the order the comparator induces is reflexive, total and transitive; on nodes with distinct ids it is antisymmetric and `compare(a, b) == -compare(b, a)` |
| HuffmanNode.WeightConserved | src/HuffmanCompressionUtilities.java:164-174 | in a tree built by the merge rule the root's weight is the (wrapped) sum of its leaves' weights |
| HuffmanNode.IdsIncreaseUpward | src/HuffmanCompressionUtilities.java:173 | every node is created after the leaves below it: no leaf's id exceeds the id of a node above it |
| HuffmanCodes.CodeOf | src/HuffmanCompressionUtilities.java:204-212 | the path to a symbol's leaf is a string over {'0','1'}, non-empty below an internal root |
| HuffmanCodes.CodeExistsIffLeaf | src/HuffmanCompressionUtilities.java:204-212 | a symbol has a code exactly when one of the tree's leaves holds it |
| HuffmanCodes.PrefixFree | src/HuffmanCompressionUtilities.java:204-212 | no symbol's code is a prefix of another symbol's code |
| HuffmanCodes.Walk | src/HuffmanCompressionUtilities.java:292-304 | the walk consumes at most the bits given, all of them when it runs out at an internal node, and at least one below an internal root |
| HuffmanCodes.ToByte | src/HuffmanCompressionUtilities.java:302 | `(byte)(ord & 0xff)` is a signed byte congruent to the ordinal modulo 256, the ordinal itself for 0..127 |
| HuffmanCodes.Emit | src/HuffmanCompressionUtilities.java:292-304 | running out of bits returns -1; reaching a leaf with a 7-bit symbol returns that symbol |
| HuffmanCodes.WalkEndsAtLeaf | src/HuffmanCompressionUtilities.java:301-302 | a walk that returns a symbol ended at a leaf of the tree holding that symbol |
| HuffmanCodes.SentinelMeansOutOfBits | src/HuffmanCompressionUtilities.java:292-304 | with 7-bit symbols, the decoded value is -1 if and only if the bits ran out at an internal node; otherwise it is the symbol found |
| HuffmanCodes.DecodeRoundTrip | src/HuffmanCompressionUtilities.java:292-304 | walking a symbol's code followed by any bits finds that symbol after consuming exactly the code's length |
| HuffmanCodes.DecodeReadsCode | src/HuffmanCompressionUtilities.java:292-304 | conversely, when a walk finds a symbol, the bits it consumed are exactly that symbol's code |
| HuffmanCodes.OutOfBitsIsPrefix | src/HuffmanCompressionUtilities.java:294-295 | when the bits run out, they are a proper prefix of some symbol's code (the input is incomplete, not invalid) |
| HuffmanCodes.DecodeOfCode | src/HuffmanCompressionUtilities.java:292-304 | walking the code of a 7-bit symbol followed by anything returns that symbol and counts exactly the code's bits |
| HuffmanCodes.LoneLeafEncodesToNothing | src/HuffmanCompressionUtilities.java:204-207 | when the root is a lone leaf, its symbol's code is the empty string, so every symbol stream encodes to no bits |
| HuffmanCodes.StreamRoundTrip | src/HuffmanCompressionUtilities.java:318-322 | decoding symbol after symbol, each time from where the last decode stopped, reads back exactly the leaf ordinals whose codes were concatenated (the bytes decodeString returns are these ordinals for 7-bit symbols, `SentinelMeansOutOfBits`) |
| HuffmanCompression.LeavesFrom | src/HuffmanCompressionUtilities.java:120-126 | the leaves the loop enqueues from index i on: at most one per remaining table index, exactly one per index when not minimizing |
| HuffmanCompression.LeavesFromShape | src/HuffmanCompressionUtilities.java:120-126 | the loop enqueues leaves only, with ids counting up by one, each carrying its table index and that index's weight, in ascending index order |
| HuffmanCompression.LeavesFromMembers | src/HuffmanCompressionUtilities.java:120-126 | index i is enqueued exactly when its weight is non-zero or `minimize` is false |
| HuffmanCompression.LeavesFromTotal | src/HuffmanCompressionUtilities.java:120-126 | the weights the loop enqueues add up to the sum of the table's weights from its start index |
| HuffmanCompression.InitialQueue | src/HuffmanCompressionUtilities.java:116-127 | the queue initializeHuffmanQueue fills: never empty, at most one leaf per table entry (leaf 0 standing for entry 0), exactly one per entry when not minimizing |
| HuffmanCompression.InitialQueueShape | src/HuffmanCompressionUtilities.java:116-127 | the starting queue is leaf 0 with weight 1 followed by the table's leaves, ids consecutive, ordinals ascending, total weight 1 + the sum of weights[1..] |
| HuffmanCompression.InitialQueueMembers | src/HuffmanCompressionUtilities.java:116-127 | a symbol is in the starting queue exactly when it is 0, or an index of the table whose weight is non-zero or `minimize` is false |
| HuffmanCompression.LeafBagRemove | src/HuffmanCompressionUtilities.java:165 | removing a node from the queue removes exactly that node's leaves and weight from the queue's |
| HuffmanCompression.MergeKeepsLeaves | src/HuffmanCompressionUtilities.java:165-173 | one merge round (remove two, enqueue their parent) keeps the multiset of leaves in the queue and their total weight |
| HuffmanCompression.AppendKeepsInvariant | src/HuffmanCompressionUtilities.java:173 | enqueueing a well-formed node carrying the next creation id keeps every id in the queue distinct and below the counter |
| HuffmanCompression.RemoveKeepsInvariant | src/HuffmanCompressionUtilities.java:165 | removing any node keeps the queue's invariant |
| HuffmanCompression.BuiltTreeDistinct | src/HuffmanCompressionUtilities.java:164-174 | a tree holding exactly the starting leaves has each symbol at most once, and only symbols of the table |
| HuffmanCompression.BuiltTreeCodes | src/HuffmanCompressionUtilities.java:164-174 | in such a tree a symbol has a code exactly when it was enqueued |
| HuffmanCompression.LastNode | src/HuffmanCompressionUtilities.java:164-174 | the node left after merging holds exactly the starting leaves, its symbols are distinct and indices of the table, a symbol has a code iff it was enqueued, and its weight is the wrapped sum 1 + weights[1..] |
| HuffmanCompression.MinIndex | src/HuffmanCompressionUtilities.java:165 | `remove()` hands out a node the comparator puts no later than any node in the queue, and it is the position `MinPos` names |
| HuffmanCompression.MinPos | src/HuffmanCompressionUtilities.java:165 | the position of a node the comparator puts no later than every node of a non-empty queue |
| HuffmanCompression.Parent | src/HuffmanCompressionUtilities.java:173 | the node `new HuffmanTreeNode(left.getWeight() + right.getWeight(), left, right)` creates: an internal node with the given id and a Java int weight, whose leaves are the left child's followed by the right child's and whose exact leaf total is the sum of theirs |
| HuffmanCompression.Step | src/HuffmanCompressionUtilities.java:165-173 | one pass of the loop: the queue loses a node, and its last node is the new parent, carrying the pass's id, with the node `remove()` hands out first (`MinPos`) as its left child |
| HuffmanCompression.Merge | src/HuffmanCompressionUtilities.java:164-174 | the node left when each pass removes `MinPos` twice, puts the first-removed node on the left and appends their parent with the next id; a lone node is never merged, and from two or more nodes the result is the internal node the last pass created, with id `id + |q| - 2` |
| HuffmanCompression.HuffmanTree | src/HuffmanCompressionUtilities.java:157-175 | the tree buildHuffmanTree builds: `Merge` of the starting leaves with the ids after theirs; with no table leaf it is the terminator leaf `Leaf(0, 1, id0)` itself, otherwise the internal node created last, with id `id0 + 2n - 2` for n starting leaves |
| HuffmanCompression.StepKeepsLeaves | src/HuffmanCompressionUtilities.java:165-173 | one greedy pass keeps the queue's multiset of leaves and their total weight |
| HuffmanCompression.StepKeepsInvariant | src/HuffmanCompressionUtilities.java:165-173 | one greedy pass keeps the queue invariant with the counter one further: the parent is well formed, its first child precedes its second, and its id is new |
| HuffmanCompression.MergeKeepsLeafBag | src/HuffmanCompressionUtilities.java:164-174 | the tree the greedy merge ends with holds exactly the queue's leaves, and their weights sum to the queue's total |
| HuffmanCompression.MergeWellFormed | src/HuffmanCompressionUtilities.java:164-174 | the tree the greedy merge ends with is built by the merge rule throughout |
| HuffmanCompression.MergedTree | src/HuffmanCompressionUtilities.java:164-174 | the greedy merge of a valid queue is a well-formed tree over exactly the queue's leaves, weighing their wrapped total |
| HuffmanCompression.MergedRoot | src/HuffmanCompressionUtilities.java:164-174 | the same, and a lone node is the tree itself while two or more nodes give an internal root |
| HuffmanCompression.MergeAfterStep | src/HuffmanCompressionUtilities.java:164-173 | a loop iteration that merges two nodes does not change the tree the queue merges down to |
| HuffmanCompression.InitialQueueValid | src/HuffmanCompressionUtilities.java:116-127 | the starting queue, with Java int weights, meets the queue invariant with the counter just past its ids |
| HuffmanCompression.HuffmanTreeIsBuiltFrom | src/HuffmanCompressionUtilities.java:157-175 | the greedy tree over the starting queue is well formed, holds exactly the starting leaves with distinct symbols that index the table, has a code for exactly the enqueued symbols, and weighs the wrapped sum 1 + weights[1..] |
| HuffmanCompression.MinimumIsUnique | src/HuffmanCompressionUtilities.java:44-58 | with distinct ids only one node can come first, so the queue order is deterministic |
| HuffmanCompression.NewCodeTable | src/HuffmanCompressionUtilities.java:160 | a fresh 128-slot code table with every slot null |
| HuffmanCompression.HuffmanCompressionUtilities.constructor | src/HuffmanCompressionUtilities.java:42-63 | the queue starts empty and root, encodeMap and weights null |
| HuffmanCompression.HuffmanCompressionUtilities.GetTreeRoot | src/HuffmanCompressionUtilities.java:70-72 | returns the root field |
| HuffmanCompression.HuffmanCompressionUtilities.GetEncodeMap | src/HuffmanCompressionUtilities.java:79-81 | returns the encodeMap field |
| HuffmanCompression.HuffmanCompressionUtilities.SetWeights | src/HuffmanCompressionUtilities.java:134-136 | stores the given array (not a copy) and changes nothing else |
| HuffmanCompression.HuffmanCompressionUtilities.GetNumCharsDecoded | src/HuffmanCompressionUtilities.java:330-332 | returns the counter |
| HuffmanCompression.HuffmanCompressionUtilities.SetNumCharsDecoded | src/HuffmanCompressionUtilities.java:339-341 | sets the counter and changes nothing else |
| HuffmanCompression.HuffmanCompressionUtilities.InitializeHuffmanQueue | src/HuffmanCompressionUtilities.java:116-127 | appends exactly the starting queue (leaf 0 weight 1, then the kept indices in order) and advances the id counter by one per leaf, keeping the queue invariant |
| HuffmanCompression.HuffmanCompressionUtilities.EnqueueLeaf | src/HuffmanCompressionUtilities.java:118-124 | `queue.add(new HuffmanTreeNode(i, w))`: appends a leaf with the next id and advances the counter |
| HuffmanCompression.HuffmanCompressionUtilities.RemoveHead | src/HuffmanCompressionUtilities.java:165 | removes and returns the node at `MinPos`, one that the comparator puts no later than every node that was in the queue, leaving the rest in place |
| HuffmanCompression.HuffmanCompressionUtilities.EnqueueParent | src/HuffmanCompressionUtilities.java:173 | appends `Parent` of the two removed nodes: the internal node whose children are the first and second node removed, whose weight is their wrapped sum and whose id is the next one |
| HuffmanCompression.HuffmanCompressionUtilities.MergeRound | src/HuffmanCompressionUtilities.java:164-173 | one loop iteration: with one node left it becomes the root and the queue is empty; otherwise the new queue is exactly one greedy `Step` of the old one (the two smallest removed, their parent appended), keeping its leaves and total weight |
| HuffmanCompression.HuffmanCompressionUtilities.MergeQueue | src/HuffmanCompressionUtilities.java:164-174 | the loop ends with an empty queue and the root is exactly `Merge` of the queue it started from: the two-smallest greedy merge, with one new id per merge; that root holds exactly the queue's leaves and weighs their wrapped total, and a lone node becomes the root itself |
| HuffmanCompression.HuffmanCompressionUtilities.BuildHuffmanTree | src/HuffmanCompressionUtilities.java:157-175 | discards prior results (a fresh all-null 128-slot code table), then sets the root to exactly `HuffmanTree` of the weight table: the greedy merge of the starting leaves. That root holds exactly the enqueued leaves, its symbols are distinct indices of the table, it has a code for exactly the enqueued symbols, and it weighs the wrapped sum 1 + weights[1..]. With no table leaf the root is the terminator leaf; otherwise it is the last node created. 2n-1 nodes are created for n leaves |
| HuffmanCompression.HuffmanCompressionUtilities.GrowTree | src/HuffmanCompressionUtilities.java:161-174 | enqueues the starting leaves and merges them: the root is `HuffmanTree` of the weight table and 2n-1 ids are used for n leaves |
| HuffmanCompression.HuffmanCompressionUtilities.MergeLeaves | src/HuffmanCompressionUtilities.java:164-174 | merging a queue that holds exactly the starting leaves sets the root to `HuffmanTree` and uses one id per merge |
| HuffmanCompression.HuffmanCompressionUtilities.CreateHuffmanCodes | src/HuffmanCompressionUtilities.java:204-212 | each slot of a symbol below `node` becomes `code` followed by the symbol's path; every other slot keeps its old value |
| HuffmanCompression.HuffmanCompressionUtilities.TraverseTree | src/HuffmanCompressionUtilities.java:292-304 | returns the byte of the walk over the digits and adds the number of digits it consumed to the counter |
| HuffmanCompression.HuffmanCompressionUtilities.DecodeString | src/HuffmanCompressionUtilities.java:318-323 | an empty string returns -1 and leaves the counter alone; otherwise the counter ends at the number of digits the walk from the root consumed and the result is the walk's byte |

## Left out

- `readFreqWeights`: file reading and `Integer.parseInt` on each line are I/O. The weight table enters through `SetWeights` as an array of Java `int`s.
- Debug output: `printNodeInfo`, `dumpQueue`, `printHuffmanTree` and `toString` only render text for the console, and the `str` field exists only for them.
- `EncodeDecodeGUI.java` is the JavaFX interface, and the encoding and bit-packing controller is not part of this model.
- `java.util.PriorityQueue`: the binary heap is not modelled. `remove()` is a linear scan for the comparator's minimum. Since the queue's ids are distinct, that minimum is the one node the heap would hand out.
- `HuffmanTreeNode` is not part of this model. The model assumes each node gets a creation id from a counter that increases by one per node. If that counter is shared by all engines, as a static field would be, the model still keeps it per engine, in `nodeCount`. The ordinal an internal node reports is the constructor parameter `mergedOrd`.
- TraverseTree: the model requires the bits to be ASCII digits (`IsDigits`). This restriction is the model's own: `Integer.parseInt` also accepts other Unicode decimal digits and throws on anything else, and neither case is modelled. A digit other than '1' goes left as in the code. The requirement covers the whole string, but `traverseTree` parses only the characters it consumes (src/HuffmanCompressionUtilities.java:297), so Java also accepts strings whose text after the decoded code is not digits, such as "0x" when "0" is a code. The lemmas about codes speak of strings over {'0','1'}.
- TraverseTree: `numCharsDecoded` is a Java `int`. Its overflow past 2^31 - 1 digits is not modelled.
- BuildHuffmanTree: requires the queue to be empty on entry. That holds when `initializeHuffmanQueue` is reached only through `buildHuffmanTree` and no earlier call threw midway. `initializeHuffmanQueue` is package-private (src/HuffmanCompressionUtilities.java:116). A direct call to it before `buildHuffmanTree` leaves the starting leaves queued, the build then merges both sets of leaves, and that case is not modelled. It also requires the weights to be 32-bit values; weights outside that range cannot arise in Java.
- DecodeString: requires a root to exist when the string is non-empty. Java would throw a `NullPointerException` there.
- CreateHuffmanCodes: requires `encodeMap` to exist and every symbol below `node` to index it. Java would throw otherwise. The `level` argument feeds only the commented-out debug print.
- `weights` aliasing: `setWeights` stores the caller's array, and the model keeps the same array. Changes the caller makes to it between calls are not modelled beyond what `weights[..]` reads at the call.
- StreamRoundTrip: requires the root to be an internal node. With a lone leaf as root every code is the empty string (`LoneLeafEncodesToNothing`), and `decodeString` returns -1 for an empty string (src/HuffmanCompressionUtilities.java:319), so no stream can be read back.
- Helpers that are not separate methods in the source: `EnqueueLeaf`, `RemoveHead`, `EnqueueParent`, `MergeRound`, `MergeQueue`, `GrowTree`, `MergeLeaves` and `NewCodeTable` name steps that `initializeHuffmanQueue` and `buildHuffmanTree` do inline.
