/**
 * The node of a Huffman code tree (HuffmanNode.java) and the structural
 * notions the rest of the model uses: leaves, paths, full trees and trees
 * built by merging.
 */
module Nodes {

  /**
   * A reference to a node. `Null` is Java's null; a `Node` carries the four
   * public fields of HuffmanNode. Every node has a `charValue`: internal and
   * placeholder nodes keep Java's default 0.
   */
  datatype HuffmanNode =
    | Null
    | Node(frequency: int, charValue: int, left: HuffmanNode, right: HuffmanNode)

  /** The test both `decode` and `write` use: a node with no children. */
  predicate IsLeaf(n: HuffmanNode) {
    n.Node? && n.left.Null? && n.right.Null?
  }

  /** `new HuffmanNode(frequency, charValue)`: a leaf. */
  function LeafNode(frequency: int, charValue: int): (n: HuffmanNode)
    ensures IsLeaf(n)
    ensures n.frequency == frequency && n.charValue == charValue
  {
    Node(frequency, charValue, Null, Null)
  }

  /** `new HuffmanNode(combinedFrequency, left, right)`: charValue keeps its default 0. */
  function InternalNode(combinedFrequency: int, left: HuffmanNode, right: HuffmanNode): (n: HuffmanNode)
    ensures n.Node? && n.frequency == combinedFrequency && n.charValue == 0
    ensures n.left == left && n.right == right
    ensures IsLeaf(n) <==> left.Null? && right.Null?
  {
    Node(combinedFrequency, 0, left, right)
  }

  /** `new HuffmanNode()`, which delegates to the internal constructor with no children. */
  function Placeholder(): (n: HuffmanNode)
    ensures IsLeaf(n) && n.frequency == 0 && n.charValue == 0
  {
    InternalNode(0, Null, Null)
  }

  // Java's 32-bit int

  const INT_MIN: int := -0x8000_0000
  const INT_MAX: int := 0x7fff_ffff

  predicate IsInt(x: int) {
    INT_MIN <= x <= INT_MAX
  }

  /** Java's `a - b` on int: the mathematical difference wrapped into 32 bits. */
  function Subtract(a: int, b: int): (d: int)
    requires IsInt(a) && IsInt(b)
    ensures IsInt(d)
    ensures (d - (a - b)) % 0x1_0000_0000 == 0
    ensures IsInt(a - b) ==> d == a - b
  {
    var e := a - b;
    if e > INT_MAX then e - 0x1_0000_0000
    else if e < INT_MIN then e + 0x1_0000_0000
    else e
  }

  /**
   * `this.compareTo(other)`: the order of the priority queue. It looks only at
   * the frequencies; for the non-negative frequencies of this program its sign
   * is the sign of the difference of the two frequencies.
   */
  function CompareTo(node: HuffmanNode, other: HuffmanNode): (r: int)
    requires node.Node? && other.Node?
    requires IsInt(node.frequency) && IsInt(other.frequency)
    ensures IsInt(r)
    ensures node.frequency == other.frequency ==> r == 0
    ensures 0 <= node.frequency && 0 <= other.frequency ==>
      && (r < 0 <==> node.frequency < other.frequency)
      && (r == 0 <==> node.frequency == other.frequency)
      && (r > 0 <==> node.frequency > other.frequency)
  {
    Subtract(node.frequency, other.frequency)
  }

  function Sign(x: int): int {
    if x < 0 then -1 else if x == 0 then 0 else 1
  }

  /** For non-negative frequencies, swapping the operands negates the sign. */
  lemma CompareToAntisymmetric(a: HuffmanNode, b: HuffmanNode)
    requires a.Node? && b.Node?
    requires 0 <= a.frequency <= INT_MAX && 0 <= b.frequency <= INT_MAX
    ensures Sign(CompareTo(a, b)) == -Sign(CompareTo(b, a))
  {
  }

  // Paths and shapes

  /**
   * The node reached from `n` by following `path`: '0' goes to the left child,
   * every other character to the right one. A missing node is `Null`.
   */
  function Follow(n: HuffmanNode, path: string): HuffmanNode
    decreases |path|
  {
    if path == "" then n
    else if n.Null? then Null
    else Follow(if path[0] == '0' then n.left else n.right, path[1..])
  }

  lemma {:induction false} FollowNull(path: string)
    ensures Follow(Null, path) == Null
  {
  }

  /** Following `p + q` is following `p`, then `q`. */
  lemma {:induction false} FollowAppend(n: HuffmanNode, p: string, q: string)
    ensures Follow(n, p + q) == Follow(Follow(n, p), q)
    decreases |p|
  {
    if p == "" {
      assert p + q == q;
    } else if n.Null? {
      FollowNull(q);
    } else {
      assert (p + q)[0] == p[0];
      assert (p + q)[1..] == p[1..] + q;
      FollowAppend(if p[0] == '0' then n.left else n.right, p[1..], q);
    }
  }

  /** No node has exactly one child: a full binary tree. */
  predicate Full(n: HuffmanNode) {
    n.Node? && (IsLeaf(n) || (Full(n.left) && Full(n.right)))
  }

  /**
   * A tree as the queue merge builds it: full, every internal node has
   * charValue 0 and the sum of its children's frequencies.
   */
  predicate Merged(n: HuffmanNode) {
    && n.Node?
    && (|| IsLeaf(n)
        || (&& Merged(n.left) && Merged(n.right)
            && n.charValue == 0
            && n.frequency == n.left.frequency + n.right.frequency))
  }

  lemma {:induction false} MergedIsFull(n: HuffmanNode)
    requires Merged(n)
    ensures Full(n)
  {
    if !IsLeaf(n) {
      MergedIsFull(n.left);
      MergedIsFull(n.right);
    }
  }

  /** The leaves of a tree, left to right. */
  function LeafSeq(n: HuffmanNode): (leaves: seq<HuffmanNode>)
    ensures forall k :: 0 <= k < |leaves| ==> IsLeaf(leaves[k])
    ensures Full(n) ==> |leaves| >= 1
    ensures Full(n) && |leaves| == 1 ==> IsLeaf(n)
  {
    if n.Null? then []
    else if IsLeaf(n) then [n]
    else LeafSeq(n.left) + LeafSeq(n.right)
  }

  /** The leaves of a tree as a multiset. */
  function TreeLeaves(n: HuffmanNode): multiset<HuffmanNode> {
    if n.Null? then multiset{}
    else if IsLeaf(n) then multiset{n}
    else TreeLeaves(n.left) + TreeLeaves(n.right)
  }

  lemma {:induction false} TreeLeavesSeq(n: HuffmanNode)
    ensures TreeLeaves(n) == multiset(LeafSeq(n))
  {
    if n.Node? && !IsLeaf(n) {
      TreeLeavesSeq(n.left);
      TreeLeavesSeq(n.right);
    }
  }

  predicate AllNodes(s: seq<HuffmanNode>) {
    forall k :: 0 <= k < |s| ==> s[k].Node?
  }

  /** The sum of the frequencies of a sequence of nodes. */
  function SumFrequency(s: seq<HuffmanNode>): int
    requires AllNodes(s)
  {
    if s == [] then 0 else s[0].frequency + SumFrequency(s[1..])
  }

  lemma {:induction false} SumFrequencyAppend(a: seq<HuffmanNode>, b: seq<HuffmanNode>)
    requires AllNodes(a) && AllNodes(b)
    ensures AllNodes(a + b)
    ensures SumFrequency(a + b) == SumFrequency(a) + SumFrequency(b)
  {
    if a == [] {
      assert a + b == b;
    } else {
      assert (a + b)[1..] == a[1..] + b;
      SumFrequencyAppend(a[1..], b);
    }
  }

  /** No child is heavier than its parent: merges only ever grow the frequency. */
  predicate MonotoneUp(n: HuffmanNode) {
    n.Null? || IsLeaf(n) ||
    (&& MonotoneUp(n.left) && MonotoneUp(n.right)
     && (n.left.Node? ==> n.left.frequency <= n.frequency)
     && (n.right.Node? ==> n.right.frequency <= n.frequency))
  }

  /** No frequency in `s` is negative. */
  predicate NonNegative(s: seq<HuffmanNode>) {
    forall k :: 0 <= k < |s| ==> s[k].Node? && s[k].frequency >= 0
  }

  /** Both halves of a sequence of non-negative nodes are non-negative. */
  lemma NonNegativeSplit(l: seq<HuffmanNode>, r: seq<HuffmanNode>)
    requires NonNegative(l + r)
    ensures NonNegative(l) && NonNegative(r)
  {
    assert forall k :: 0 <= k < |l| ==> l[k] == (l + r)[k];
    assert forall k :: 0 <= k < |r| ==> r[k] == (l + r)[|l| + k];
  }

  /** A merged tree weighs the sum of its leaves. */
  lemma {:induction false} MergedSum(n: HuffmanNode)
    requires Merged(n)
    ensures n.frequency == SumFrequency(LeafSeq(n))
  {
    if IsLeaf(n) {
      assert LeafSeq(n) == [n];
      assert SumFrequency([n]) == n.frequency + SumFrequency([]);
    } else {
      MergedSum(n.left);
      MergedSum(n.right);
      SumFrequencyAppend(LeafSeq(n.left), LeafSeq(n.right));
    }
  }

  /** When no leaf of a merged tree is negative, no node is, and no child outweighs its parent. */
  lemma {:induction false} MergedMonotone(n: HuffmanNode)
    requires Merged(n) && NonNegative(LeafSeq(n))
    ensures n.frequency >= 0 && MonotoneUp(n)
  {
    if IsLeaf(n) {
      assert LeafSeq(n)[0] == n;
    } else {
      NonNegativeSplit(LeafSeq(n.left), LeafSeq(n.right));
      MergedMonotone(n.left);
      MergedMonotone(n.right);
    }
  }

}
