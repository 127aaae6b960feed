/**
 * The HuffmanTree class (HuffmanTree.java). Its two constructors leave it
 * in two different states: the frequency constructor fills the queue
 * `saveWords` and never sets `overallRoot`, so only `write` works on it;
 * the Scanner constructor sets `overallRoot` and never creates a queue, so
 * only `decode` works on it.
 */
module Huffman {

  import opened Wrappers
  import opened Nodes
  import opened Queues
  import Codes
  import opened Rebuilding
  import Decoding

  class HuffmanTree {
    /** The priority queue; `None` is Java's null. */
    var saveWords: Option<seq<HuffmanNode>>
    /** The root used by `decode`; `Null` unless built by the Scanner constructor. */
    var overallRoot: HuffmanNode

    /**
     * `HuffmanTree(int[] count)`: one leaf per positive count plus the
     * end-of-stream leaf `(1, count.length)`, merged into a single tree.
     */
    constructor FromCounts(count: seq<int>)
      ensures saveWords.Some? && overallRoot.Null?
      ensures |saveWords.value| == 1
      ensures Merged(saveWords.value[0])
      ensures multiset(LeafSeq(saveWords.value[0])) == multiset(InitialQueue(count))
      ensures saveWords.value[0].frequency == PositiveSum(count) + 1
      ensures exists steps :: MergeRun(InitialQueue(count), steps) == Some(saveWords.value)
      ensures MonotoneUp(saveWords.value[0])
    {
      saveWords := Some([]);
      overallRoot := Null;
      new;
      var i := 0;
      while i < |count|
        invariant 0 <= i <= |count|
        invariant saveWords == Some(PositiveLeaves(count[..i]))
        invariant overallRoot.Null?
      {
        PositiveLeavesStep(count, i);
        ghost var before := saveWords.value;
        if count[i] > 0 {
          saveWords := Some(saveWords.value + [LeafNode(count[i], i)]);
          assert saveWords.value == before + [LeafNode(count[i], i)];
        } else {
          assert saveWords.value == before;
        }
        assert saveWords.value == PositiveLeaves(count[..i + 1]);
        i := i + 1;
      }
      assert count[..i] == count;
      saveWords := Some(saveWords.value + [LeafNode(1, |count|)]);
      InitialQueueShape(count);
      BuildTree();
      MergedFromInitial(count, saveWords.value);
      FrequencyBuiltMonotone(count, saveWords.value[0]);
    }

    /**
     * `HuffmanTree(Scanner input)`: starting from a placeholder root, insert
     * every `(charValue, code)` pair in order. The queue stays null.
     */
    constructor FromCodes(input: seq<(int, string)>)
      ensures saveWords.None?
      ensures overallRoot == Rebuild(Placeholder(), input)
      ensures overallRoot.Node?
    {
      saveWords := None;
      overallRoot := Placeholder();
      new;
      var i := 0;
      while i < |input|
        invariant 0 <= i <= |input|
        invariant saveWords.None?
        invariant overallRoot == Rebuild(Placeholder(), input[..i])
        invariant overallRoot.Node?
      {
        var charValue := input[i].0;
        var code := input[i].1;
        assert input[..i + 1][..i] == input[..i];
        overallRoot := Rebuilding.BuildTree(overallRoot, code, charValue);
        i := i + 1;
      }
      assert input[..i] == input;
    }

    /**
     * `buildTree()`: while the queue holds more than one node, remove a
     * minimum, remove a minimum of the rest and add their merge. The new
     * queue is reached from the old one by such greedy steps only; each step
     * keeps the total frequency, the leaves and the merged shape of every
     * tree, and the queue ends with exactly one tree.
     */
    method BuildTree()
      requires saveWords.Some? && AllNodes(saveWords.value)
      modifies this
      ensures saveWords.Some? && overallRoot == old(overallRoot)
      ensures |old(saveWords.value)| <= 1 ==> saveWords == old(saveWords)
      ensures |old(saveWords.value)| >= 1 ==> |saveWords.value| == 1
      ensures AllNodes(saveWords.value)
      ensures SumFrequency(saveWords.value) == old(SumFrequency(saveWords.value))
      ensures QueueLeaves(saveWords.value) == old(QueueLeaves(saveWords.value))
      ensures old(AllMerged(saveWords.value)) ==> AllMerged(saveWords.value)
      ensures exists steps :: MergeRun(old(saveWords.value), steps) == Some(saveWords.value)
    {
      ghost var steps: seq<(int, int)> := [];
      while |saveWords.value| > 1
        invariant saveWords.Some? && AllNodes(saveWords.value)
        invariant overallRoot == old(overallRoot)
        invariant |old(saveWords.value)| <= 1 ==> saveWords == old(saveWords)
        invariant |old(saveWords.value)| >= 1 ==> |saveWords.value| >= 1
        invariant MergeRun(old(saveWords.value), steps) == Some(saveWords.value)
        decreases |saveWords.value|
      {
        ghost var q := saveWords.value;
        MinimumExists(saveWords.value);
        var i :| IsMinIndex(saveWords.value, i);
        var min := saveWords.value[i];
        saveWords := Some(RemoveAt(saveWords.value, i));
        MinimumExists(saveWords.value);
        var j :| IsMinIndex(saveWords.value, j);
        var nextMin := saveWords.value[j];
        saveWords := Some(RemoveAt(saveWords.value, j));
        saveWords := Some(saveWords.value + [InternalNode(min.frequency + nextMin.frequency, min, nextMin)]);
        assert saveWords.value == MergeStep(q, i, j);
        MergeStepFacts(q, i, j);
        MergeRunStep(old(saveWords.value), steps, q, i, j);
        steps := steps + [(i, j)];
      }
      MergeRunFacts(old(saveWords.value), steps);
    }

    /**
     * `decode(input, output, eof)` on a tree with a root: follows the run
     * described by `Decoding.Decode`, returning what it writes and how many
     * bits it reads. Only runs that reach the eof leaf are modelled.
     */
    method Decode(input: seq<int>, eof: int) returns (output: seq<int>, consumed: nat)
      requires overallRoot.Node?
      requires Decoding.Decode(overallRoot, input, eof).Done?
      ensures output == Decoding.Decode(overallRoot, input, eof).written
      ensures consumed <= |input| && input[consumed..] == Decoding.Decode(overallRoot, input, eof).rest
      ensures eof !in output
      ensures overallRoot.charValue == eof ==> output == [] && consumed == 0
    {
      ghost var result := Decoding.Decode(overallRoot, input, eof);
      Decoding.DecodeNeverWritesEof(overallRoot, input, eof);
      var stop := overallRoot.charValue;
      var temp := overallRoot;
      output, consumed := [], 0;
      while stop != eof
        invariant consumed <= |input|
        invariant stop == eof ==> output == result.written && input[consumed..] == result.rest
        invariant stop != eof ==>
          && !IsLeaf(overallRoot)
          && Decoding.Steps(overallRoot, temp, input[consumed..], eof).Done?
          && output + Decoding.Steps(overallRoot, temp, input[consumed..], eof).written == result.written
          && Decoding.Steps(overallRoot, temp, input[consumed..], eof).rest == result.rest
        decreases |input| - consumed, if stop == eof then 0 else if IsLeaf(temp) then 2 else 1
      {
        if temp.right.Null? && temp.left.Null? {
          if temp.charValue != eof {
            output := output + [temp.charValue];
            temp := overallRoot;
          } else {
            stop := temp.charValue;
          }
        } else {
          var bit := input[consumed];
          assert input[consumed..][1..] == input[consumed + 1..];
          consumed := consumed + 1;
          if bit == 0 {
            temp := temp.left;
          } else {
            temp := temp.right;
          }
        }
      }
    }

    /**
     * `write(output)`: serialises the tree at the head of the queue (a
     * minimum, as `element()` returns it) starting from the empty code.
     */
    method Write() returns (lines: seq<(int, string)>)
      requires saveWords.Some? && |saveWords.value| > 0
      requires forall k :: 0 <= k < |saveWords.value| ==> Full(saveWords.value[k])
      ensures exists i :: IsMinIndex(saveWords.value, i) && lines == Codes.Write("", saveWords.value[i])
    {
      MinimumExists(saveWords.value);
      var i :| IsMinIndex(saveWords.value, i);
      var code := "";
      lines := Codes.Write(code, saveWords.value[i]);
    }
  }

  /** A queue of one tree that `buildTree()` reached from the starting queue. */
  lemma MergedFromInitial(count: seq<int>, q: seq<HuffmanNode>)
    requires AllNodes(q) && |q| == 1 && AllNodes(InitialQueue(count))
    requires SumFrequency(q) == SumFrequency(InitialQueue(count))
    requires QueueLeaves(q) == QueueLeaves(InitialQueue(count))
    requires AllMerged(InitialQueue(count)) ==> AllMerged(q)
    ensures Merged(q[0])
    ensures multiset(LeafSeq(q[0])) == multiset(InitialQueue(count))
    ensures q[0].frequency == PositiveSum(count) + 1
  {
    InitialQueueShape(count);
    InitialQueueLeaves(count);
    assert q == [q[0]];
    SingletonQueue(q[0]);
  }

  /**
   * A tree built from the starting queue only by merging weighs at least
   * zero, and no child in it outweighs its parent.
   */
  lemma FrequencyBuiltMonotone(count: seq<int>, t: HuffmanNode)
    requires Merged(t) && multiset(LeafSeq(t)) == multiset(InitialQueue(count))
    ensures t.frequency >= 0 && MonotoneUp(t)
  {
    InitialQueueNonNegative(count);
    NonNegativeMultiset(LeafSeq(t), InitialQueue(count));
    MergedMonotone(t);
  }

  // What the two halves of the class achieve together

  /** The counts of a non-empty alphabet: some character occurs. */
  predicate SomeCharacter(count: seq<int>) {
    exists i :: 0 <= i < |count| && count[i] > 0
  }

  /** A message over characters with positive counts (so none of them is eof, `count.length`). */
  predicate Encodable(count: seq<int>, message: seq<int>) {
    forall k :: 0 <= k < |message| ==> 0 <= message[k] < |count| && count[message[k]] > 0
  }

  /** Every leaf `(count[s], s)` of the starting queue, and the eof leaf, has a code in the output of `write`. */
  lemma {:induction false} WrittenSymbols(count: seq<int>, t: HuffmanNode, s: int)
    requires Full(t) && multiset(LeafSeq(t)) == multiset(InitialQueue(count))
    requires (0 <= s < |count| && count[s] > 0) || s == |count|
    ensures Decoding.Lookup(Codes.Write("", t), s).Some?
  {
    InitialQueueMultiplicity(count);
    var leaf := if s == |count| then LeafNode(1, |count|) else LeafNode(count[s], s);
    assert leaf in multiset(LeafSeq(t));
    var k :| 0 <= k < |LeafSeq(t)| && LeafSeq(t)[k] == leaf;
    Codes.WriteLeaves("", t);
    assert Codes.Write("", t)[k].0 == s;
  }

  /**
   * End to end: for a tree with the leaves of the starting queue of an
   * alphabet with at least one character, the pairs `write` prints rebuild
   * (through the Scanner constructor) a tree on which `decode` turns the
   * codes of any message, followed by the code of eof, back into exactly
   * that message, reading every bit.
   */
  lemma CompressExpand(count: seq<int>, t: HuffmanNode, message: seq<int>)
    requires Full(t) && multiset(LeafSeq(t)) == multiset(InitialQueue(count))
    requires SomeCharacter(count) && Encodable(count, message)
    ensures var lines := Codes.Write("", t);
      var root := Rebuild(Placeholder(), lines);
      && root.Node?
      && Decoding.Lookup(lines, |count|).Some?
      && (forall k :: 0 <= k < |message| ==> Decoding.Lookup(lines, message[k]).Some?)
      && Decoding.Decode(root, Decoding.Encode(lines, message) + Decoding.Bits(Decoding.Lookup(lines, |count|).value), |count|)
         == Decoding.Done(message, [])
  {
    var lines := Codes.Write("", t);
    NotALeaf(count, t);
    RebuildWrite(Placeholder(), t);
    var root := Skeleton(t);
    SkeletonCodes(t);
    WrittenSymbols(count, t, |count|);
    forall k | 0 <= k < |message| ensures Decoding.Lookup(lines, message[k]).Some? {
      WrittenSymbols(count, t, message[k]);
    }
    var bits := Decoding.Encode(lines, message) + Decoding.Bits(Decoding.Lookup(lines, |count|).value);
    Decoding.DecodeEncoded(root, lines, message, |count|, []);
    assert bits + [] == bits;
  }

  /** With a character besides eof the tree has at least two leaves, so it is not a leaf. */
  lemma NotALeaf(count: seq<int>, t: HuffmanNode)
    requires Full(t) && multiset(LeafSeq(t)) == multiset(InitialQueue(count))
    requires SomeCharacter(count)
    ensures !IsLeaf(t) && |count| > 0
  {
    var i :| 0 <= i < |count| && count[i] > 0;
    InitialQueueMultiplicity(count);
    assert LeafNode(count[i], i) in multiset(LeafSeq(t));
    assert LeafNode(1, |count|) in multiset(LeafSeq(t));
  }

  /** The skeleton keeps the tree's shape and charValues: every code `write` prints leads to its symbol. */
  lemma SkeletonCodes(t: HuffmanNode)
    requires Full(t) && !IsLeaf(t)
    ensures !IsLeaf(Skeleton(t)) && Skeleton(t).Node? && Skeleton(t).charValue == 0
    ensures Decoding.CodesReachLeaves(Skeleton(t), Codes.Write("", t))
  {
    WriteSkeleton("", t);
    var root, lines := Skeleton(t), Codes.Write("", t);
    Codes.WriteLeaves("", root);
    forall k | 0 <= k < |lines|
      ensures IsLeaf(Follow(root, lines[k].1)) && Follow(root, lines[k].1).charValue == lines[k].0
    {
      assert lines[k].1[|""|..] == lines[k].1;
    }
  }

  /**
   * An alphabet with no character: the tree is the eof leaf alone, `write`
   * prints its one pair with the empty code, and the rebuilt root stays the
   * placeholder with charValue 0, on which `decode` for eof `count.length`
   * writes 0 forever unless `count` is empty.
   */
  lemma EmptyAlphabet(count: seq<int>, t: HuffmanNode, bits: seq<int>)
    requires Merged(t) && multiset(LeafSeq(t)) == multiset(InitialQueue(count))
    requires !SomeCharacter(count)
    ensures t == LeafNode(1, |count|)
    ensures Codes.Write("", t) == [(|count|, "")]
    ensures Rebuild(Placeholder(), Codes.Write("", t)) == Placeholder()
    ensures |count| > 0 ==> Decoding.Decode(Placeholder(), bits, |count|) == Decoding.Endless
    ensures |count| == 0 ==> Decoding.Decode(Placeholder(), bits, |count|) == Decoding.Done([], bits)
  {
    InitialQueueShape(count);
    assert |InitialQueue(count)| == 1 by {
      PositiveCountZero(count);
    }
    MergedIsFull(t);
    var eof := LeafNode(1, |count|);
    assert InitialQueue(count) == [eof];
    assert |LeafSeq(t)| == |multiset(LeafSeq(t))| == 1;
    assert LeafSeq(t) == [t];
    assert t in multiset([eof]);
    SingleLeafRebuild(t);
  }

  lemma {:induction false} PositiveCountZero(count: seq<int>)
    requires !SomeCharacter(count)
    ensures PositiveCount(count) == 0
    decreases |count|
  {
    if count != [] {
      var n := |count| - 1;
      assert !SomeCharacter(count[..n]) by {
        forall i | 0 <= i < n ensures count[..n][i] <= 0 {
          assert count[..n][i] == count[i];
        }
      }
      PositiveCountZero(count[..n]);
    }
  }

  /**
   * A client of the class: compress with a frequency-built tree, expand with
   * a tree rebuilt from what it writes. Every message over characters that
   * occur comes back unchanged.
   */
  method CompressAndExpand(count: seq<int>, message: seq<int>) returns (expanded: seq<int>)
    requires SomeCharacter(count) && Encodable(count, message)
    ensures expanded == message
  {
    var encoder := new HuffmanTree.FromCounts(count);
    MergedIsFull(encoder.saveWords.value[0]);
    var lines := encoder.Write();
    assert lines == Codes.Write("", encoder.saveWords.value[0]);
    CompressExpand(count, encoder.saveWords.value[0], message);
    var decoder := new HuffmanTree.FromCodes(lines);
    var bits := Decoding.Encode(lines, message) + Decoding.Bits(Decoding.Lookup(lines, |count|).value);
    var consumed;
    expanded, consumed := decoder.Decode(bits, |count|);
  }
}
