# Huffman coding tree, modelled in Dafny

This project models the two classes of a small Java Huffman coder,
`HuffmanNode` and `HuffmanTree`, and proves what they do.

- **`HuffmanNode`** is a tree node. It has a frequency, a character value
  (`charValue`) and two child references. Its `compareTo` orders nodes by
  frequency.
- **`HuffmanTree`** has two constructors, which leave it in different states:
  - **From counts.** It takes an array of character counts and puts one leaf
    per character with a positive count into a priority queue. It adds an
    end-of-file leaf, whose `charValue` is the length of the array. Then
    `buildTree()` repeatedly replaces the two lightest nodes with their
    merge. `write` then prints one character value and one 0/1 path per
    leaf.
  - **From a `Scanner`.** It reads those pairs back. It rebuilds the tree by
    inserting each character along its path, starting from a placeholder
    root. `decode` then walks the rebuilt tree bit by bit and writes the
    character of every leaf it reaches, until it reaches the end-of-file
    character.

Modules:

- `Nodes`: the node as a datatype (`Null` stands for Java's null), its three
  constructors, Java's 32-bit `compareTo`, paths, full trees, and trees
  built by merging.
- `Queues`: the starting queue, one step of the merge loop, and whole runs
  of such steps, on a queue held as a sequence. "Remove a minimum" may pick
  any node of least frequency.
- `Codes`: what `write` prints, as `(charValue, path)` pairs. The code is
  proved to be complete and prefix-free.
- `Rebuilding`: the private path insertion `buildTree(code, charValue, root)`
  and the Scanner constructor's loop. It proves that rebuilding from what
  `write` prints gives back the tree's shape.
- `Decoding`: `decode` as a step function over the input bits. It proves
  that decoding an encoded message gives the message back.
- `Huffman`: the `HuffmanTree` class. Its fields are the queue and the root.
  It has both constructors, the merge loop, `decode` and `write`. Next to
  it are end-to-end lemmas and a client method, `CompressAndExpand`, whose
  contract says that compressing and then expanding returns every message
  unchanged.

How two edge cases end up:

- **Single-leaf tree.** This happens when no character has a positive count,
  so the tree is only the end-of-file leaf. `write` then prints its one pair
  with the empty path. The Scanner constructor ignores an empty path at an
  existing node. So the rebuilt root stays the placeholder, whose
  `charValue` is 0. `decode` with eof `count.length > 0` on that root
  writes 0 forever (`Huffman.EmptyAlphabet`). The round trip of
  `Rebuilding.WriteRebuildWrite` is therefore stated for trees that are not
  a single leaf.
- **Repeated path.** When two pairs name the same path, the first pair
  wins. The leaf made for the second pair is discarded
  (`Rebuilding.BuildTreeTaken`).

## Model

| member | source | states |
|---|---|---|
| Nodes.LeafNode | HuffmanNode.java:21-24 | the node is a leaf with exactly the given frequency and charValue |
| Nodes.InternalNode | HuffmanNode.java:33-37 | the node has the given combined frequency and children, charValue 0, and is a leaf exactly when both children are null |
| Nodes.Placeholder | HuffmanNode.java:41-43 | the placeholder is a leaf with frequency 0 and charValue 0 |
| Nodes.Subtract | HuffmanNode.java:53 | Java's int subtraction: the result is a 32-bit int congruent to the difference modulo 2^32, and equals it when it fits |
| Nodes.CompareTo | HuffmanNode.java:52-54 | the result is an int; equal frequencies give 0; for non-negative frequencies its sign is negative, zero or positive exactly when this frequency is smaller, equal or larger |
| Nodes.CompareToAntisymmetric | HuffmanNode.java:52-54 | for non-negative frequencies, swapping the two nodes negates the sign of the comparison |
| Nodes.MergedIsFull | HuffmanTree.java:127 | a tree built only by merging has no node with exactly one child |
| Nodes.MergedSum | HuffmanTree.java:127 | a merged tree's frequency is the sum of its leaves' frequencies |
| Nodes.MergedMonotone | HuffmanTree.java:127 | when no leaf of a merged tree is negative, its frequency is non-negative and no child outweighs its parent |
| Queues.PositiveLeavesStep | HuffmanTree.java:27-31 | one loop iteration appends the leaf `(count[i], i)` exactly when `count[i] > 0` |
| Queues.PositiveLeavesShape | HuffmanTree.java:27-31 | every leaf the loop adds is `(count[i], i)` for an index whose count is positive |
| Queues.PositiveLeavesWeight | HuffmanTree.java:27-31 | the loop adds one node per positive count, and their frequencies sum to the sum of the positive counts |
| Queues.PositiveLeavesMultiplicity | HuffmanTree.java:27-31 | each index with a positive count has exactly one leaf; the other indices have none |
| Queues.InitialQueueShape | HuffmanTree.java:25-32 | the starting queue has one node more than there are positive counts; its total frequency is their sum plus one; it holds only the positive-count leaves and the eof leaf `(1, count.length)` |
| Queues.InitialQueueMultiplicity | HuffmanTree.java:25-32 | the starting queue holds each positive-count leaf once, no leaf for a count of zero or less, and the eof leaf once |
| Queues.InitialQueueLeaves | HuffmanTree.java:25-32 | the starting queue is its own multiset of leaves, and every node in it is a merged tree |
| Queues.InitialQueueNonNegative | HuffmanTree.java:27-32 | no node of the starting queue has a negative frequency |
| Queues.MinimumExists | HuffmanTree.java:125-126 | a non-empty queue always has a node of least frequency for `remove()` to return |
| Queues.MergeStepFacts | HuffmanTree.java:124-128 | one merge removes two lightest nodes `a` then `b` and adds a node of frequency `a + b` with children `a`, `b`. `a` is no heavier than `b`, and `b` is no heavier than any node left. The queue shrinks by one. The total frequency, the multiset of leaves and the merged shape of every tree are kept |
| Queues.MergeStepShape | HuffmanTree.java:125-127 | one merge removes the two lightest nodes, in order of frequency, and appends their merge |
| Queues.MergeStepSum | HuffmanTree.java:125-127 | one merge keeps the total frequency of the queue |
| Queues.MergeStepLeaves | HuffmanTree.java:125-127 | one merge keeps the multiset of leaves of the queue |
| Queues.MergeStepMerged | HuffmanTree.java:125-127 | one merge of merged trees leaves only merged trees |
| Queues.MergeRunStep | HuffmanTree.java:124-128 | one more iteration that removes a minimum and then a minimum of the rest extends the run by exactly that merge |
| Queues.MergeRunFacts | HuffmanTree.java:123-130 | a run of greedy merges takes one node off the queue per step, and keeps the total frequency, the multiset of leaves and the merged shape |
| Queues.IsMinIndexCompareTo | HuffmanNode.java:52-54 | for frequencies that are non-negative ints, a node has least frequency exactly when `compareTo` ranks it no higher than any node of the queue |
| Queues.SingletonQueue | HuffmanTree.java:124 | a queue of one tree has that tree's frequency and leaves |
| Codes.WriteLeaves | HuffmanTree.java:151-159 | `write` prints exactly one pair per leaf, in left-to-right order. The k-th pair has the k-th leaf's charValue. Its path is the starting code followed by a 0/1 route that leads from the node to that leaf |
| Codes.WritePrefixFree | HuffmanTree.java:151-159 | no printed path is a prefix of another printed path |
| Codes.WriteComplete | HuffmanTree.java:151-159 | every leaf reachable by a 0/1 path is printed with that path |
| Codes.WriteShift | HuffmanTree.java:151-159 | the starting code only prefixes every printed path |
| Codes.PrependAppend | HuffmanTree.java:156-157 | prefixing the output of two recursive calls prefixes each of them |
| Codes.PrependPrepend | HuffmanTree.java:156-157 | prefixing by a code and then by a bit is prefixing by the code followed by the bit |
| Rebuilding.BuildTreeFreeRoute | HuffmanTree.java:96-117 | inserting along a path that ends in a missing node creates a leaf `(0, charValue)` at its end |
| Rebuilding.BuildTreeFreshPlaceholders | HuffmanTree.java:102-113 | every missing node the path of an insertion passes is created as a placeholder, with frequency 0 and charValue 0 |
| Rebuilding.BuildTreeTaken | HuffmanTree.java:97-100 | inserting along a path that ends in an existing node changes nothing, so the first pair given a path wins |
| Rebuilding.BuildTreeOffRoute | HuffmanTree.java:96-117 | an insertion changes no node off its path |
| Rebuilding.BuildTreeReusesRoute | HuffmanTree.java:102-113 | nodes that already exist on the path are reused, with their frequency and charValue unchanged |
| Rebuilding.FollowRoute | HuffmanTree.java:102 | only '0' goes left; any other character of a code goes right, like '1' |
| Rebuilding.RebuildAppend | HuffmanTree.java:48-52 | reading two runs of pairs inserts the first run and then the second |
| Rebuilding.RebuildLeft | HuffmanTree.java:102-107 | pairs whose paths all start with '0' rebuild only the left subtree |
| Rebuilding.RebuildRight | HuffmanTree.java:108-113 | pairs whose paths all start with '1' rebuild only the right subtree |
| Rebuilding.WriteSkeleton | HuffmanTree.java:151-159 | a tree with every frequency and internal charValue set to 0 prints the same pairs as the tree |
| Rebuilding.RebuildWrite | HuffmanTree.java:45-53 | inserting the pairs `write` prints for a full tree that is not a single leaf, starting from the placeholder root, rebuilds that tree's shape and leaf charValues |
| Rebuilding.WriteRebuildWrite | HuffmanTree.java:45-53 | round trip: a tree rebuilt from what `write` prints is full and prints exactly the same pairs again, in the same order |
| Rebuilding.SingleLeafRebuild | HuffmanTree.java:97-100 | a single-leaf tree's one pair, with the empty path, leaves the rebuilt root as the placeholder, which prints `(0, "")` |
| Decoding.StepsNeverWriteEof | HuffmanTree.java:67-83 | a run of the loop that ends never writes eof, and the bits it leaves unread are a suffix of its input |
| Decoding.DecodeNeverWritesEof | HuffmanTree.java:64-84 | `decode` never writes eof, and leaves unread a suffix of its input |
| Decoding.StepsAlongPath | HuffmanTree.java:68-82 | reading the bits of a path walks to the leaf the path leads to, and then writes it or stops there |
| Decoding.StepsMessage | HuffmanTree.java:67-83 | from the root, the bits of every symbol's code followed by eof's code are read back as exactly those symbols |
| Decoding.DecodeEncoded | HuffmanTree.java:64-84 | on a rebuilt tree whose codes lead to their symbols, decoding the encoding of a message followed by eof's code writes the message and reads every one of those bits |
| Decoding.DecodeRootIsEof | HuffmanTree.java:65-67 | when the root's charValue is eof, nothing is read or written |
| Decoding.DecodeLeafRoot | HuffmanTree.java:67-71 | when the root is a leaf other than eof, `decode` never ends. This holds by the definition of `Decoding.Decode`, which returns `Endless` here; the endless loop itself is not run step by step |
| Huffman.HuffmanTree.FromCounts | HuffmanTree.java:25-34 | the counts constructor leaves one merged tree in the queue and no root. The queue is reached from the starting queue by greedy merge steps only, each removing two minima. The tree's leaves are exactly the starting queue, its frequency is the sum of the positive counts plus one, and no child in it outweighs its parent |
| Huffman.HuffmanTree.FromCodes | HuffmanTree.java:45-53 | the Scanner constructor leaves no queue. Its root is the placeholder with every pair inserted in order |
| Huffman.HuffmanTree.BuildTree | HuffmanTree.java:123-130 | the new queue is reached from the old one by a run of merge steps, each removing a minimum and then a minimum of the rest. Merging ends with one node when the queue is non-empty, and changes nothing when it holds at most one. It keeps the total frequency, the multiset of leaves and the merged shape, and leaves the root alone |
| Huffman.HuffmanTree.Decode | HuffmanTree.java:64-84 | the loop writes exactly what the step function writes and reads exactly the bits it reads. It never writes eof, and with an eof root it reads and writes nothing |
| Huffman.HuffmanTree.Write | HuffmanTree.java:137-140 | the pairs printed are those of a least-frequency tree in the queue, from the empty code |
| Huffman.MergedFromInitial | HuffmanTree.java:32-33 | after merging the starting queue down to one tree, that tree is merged, its leaves are the starting queue, and its frequency is the sum of the positive counts plus one |
| Huffman.FrequencyBuiltMonotone | HuffmanTree.java:123-130 | a tree merged from the starting queue has a non-negative frequency, and no child in it outweighs its parent |
| Huffman.WrittenSymbols | HuffmanTree.java:151-159 | every character with a positive count, and eof, gets a code in the output of `write` |
| Huffman.NotALeaf | HuffmanTree.java:25-33 | when some character has a positive count, the built tree is not a single leaf |
| Huffman.SkeletonCodes | HuffmanTree.java:151-159 | every code `write` prints leads, in the rebuilt tree, to a leaf with that code's character |
| Huffman.CompressExpand | HuffmanTree.java:25-159 | the root rebuilt from what `write` prints decodes the codes of any message over characters that occur, followed by eof's code, into exactly that message |
| Huffman.EmptyAlphabet | HuffmanTree.java:25-34 | with no positive count, the tree is the eof leaf alone and `write` prints `(count.length, "")`. The rebuilt root is the placeholder, and `decode` on it writes forever unless `count` is empty |
| Huffman.CompressAndExpand | HuffmanTree.java:25-159 | building from counts, writing, rebuilding from the pairs and decoding the encoded message gives back the message |

## Left out

- Reading and printing: the `Scanner`, `Integer.parseInt`, `PrintStream` and `BitInputStream` are not modelled. Pairs are `(int, string)` values, output is a sequence of ints, and input bits are a sequence of ints (0 goes left, any other value right).
- `PrintStream.write` keeps only the low 8 bits of each value it writes. The model's output holds the full charValue.
- A malformed code file (an odd number of lines, a line that is not a number) raises an exception in the Scanner constructor. This is not modelled.
- The queue's internals and the tie-breaking order of `java.util.PriorityQueue` are not modelled. The model allows any node of least frequency to be removed, so every property holds for every tie-breaking.
- The optimality of the resulting code (least weighted path length) is not stated.
- Nodes are values, so the model does not capture in-place updates and aliasing of node objects. No node is shared between two places in any tree the program builds, so no update is observable through a second reference.
- Huffman.HuffmanTree.Decode: only runs that reach the eof leaf are modelled. The precondition excludes a missing child (a `NullPointerException`), running out of input bits before eof, and the endless loop on a non-eof leaf root. `Decoding.Decode` does describe these runs as the `NullChild`, `OutOfBits` and `Endless` outcomes.
- Huffman.HuffmanTree.Write: requires a queue of full trees. On a tree built by the Scanner constructor the queue is null, and `write` throws a `NullPointerException`.
- Huffman.HuffmanTree.BuildTree: frequencies are unbounded integers, so a sum of counts above 2^31 - 1 does not wrap around as Java's int addition would.
- Nodes.CompareTo: the sign is stated only for non-negative frequencies. For frequencies whose difference overflows, Java's wrapped result, which `Nodes.Subtract` models, can have the wrong sign.
- Strings are sequences of Unicode characters. Java's `code.substring(1)` drops one UTF-16 code unit, so a code line holding a character outside the Basic Multilingual Plane would take two steps in Java and one in the model. The paths `write` prints contain only '0' and '1', so they are not affected.
- Decoding.DecodeLeafRoot: the endless loop on a leaf root other than eof is stated by the definition of `Decoding.Decode`, which returns `Endless` for it. No run of the loop is modelled in this case, because it never ends.
- The unused local `temp` in the Scanner constructor, which only receives the discarded result of each insertion, is not modelled.
