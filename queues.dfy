/**
 * The priority queue `saveWords` of the frequency constructor
 * (HuffmanTree.java): the leaves it starts with (lines 25-32), one step
 * of `buildTree()` (lines 123-130) and runs of such steps. The queue is a sequence whose order
 * means nothing; "remove a minimum" may take any node of least frequency.
 */
module Queues {

  import opened Nodes
  import opened Wrappers

  /** The leaves `new HuffmanNode(count[i], i)` added for the positive counts, in index order. */
  function PositiveLeaves(count: seq<int>): seq<HuffmanNode>
    decreases |count|
  {
    if count == [] then []
    else
      var i := |count| - 1;
      PositiveLeaves(count[..i]) + (if count[i] > 0 then [LeafNode(count[i], i)] else [])
  }

  /** The queue after line 32: the positive-count leaves and the end-of-stream leaf `(1, count.length)`. */
  function InitialQueue(count: seq<int>): seq<HuffmanNode> {
    PositiveLeaves(count) + [LeafNode(1, |count|)]
  }

  /** The sum of the positive counts. */
  function PositiveSum(count: seq<int>): int
    decreases |count|
  {
    if count == [] then 0
    else
      var i := |count| - 1;
      PositiveSum(count[..i]) + (if count[i] > 0 then count[i] else 0)
  }

  /** The number of positive counts. */
  function PositiveCount(count: seq<int>): nat
    decreases |count|
  {
    if count == [] then 0
    else
      var i := |count| - 1;
      PositiveCount(count[..i]) + (if count[i] > 0 then 1 else 0)
  }

  /** Every positive-count leaf is `(count[i], i)` for an index `i` with a positive count. */
  lemma {:induction false} PositiveLeavesShape(count: seq<int>)
    ensures forall k :: 0 <= k < |PositiveLeaves(count)| ==>
      var x := PositiveLeaves(count)[k];
      && IsLeaf(x) && 0 <= x.charValue < |count| && count[x.charValue] > 0
      && x == LeafNode(count[x.charValue], x.charValue)
    decreases |count|
  {
    if count != [] {
      var i := |count| - 1;
      var pre := count[..i];
      PositiveLeavesShape(pre);
      var p := PositiveLeaves(pre);
      var add := if count[i] > 0 then [LeafNode(count[i], i)] else [];
      assert PositiveLeaves(count) == p + add;
      forall k | 0 <= k < |p| ensures count[p[k].charValue] == pre[p[k].charValue] {
      }
    }
  }

  lemma {:induction false} PositiveLeavesWeight(count: seq<int>)
    ensures AllNodes(PositiveLeaves(count))
    ensures |PositiveLeaves(count)| == PositiveCount(count)
    ensures SumFrequency(PositiveLeaves(count)) == PositiveSum(count)
    decreases |count|
  {
    if count != [] {
      var i := |count| - 1;
      var pre := count[..i];
      PositiveLeavesWeight(pre);
      var p := PositiveLeaves(pre);
      var add := if count[i] > 0 then [LeafNode(count[i], i)] else [];
      assert PositiveLeaves(count) == p + add;
      SumFrequencyAppend(p, add);
      if count[i] > 0 {
        assert SumFrequency(add) == add[0].frequency + SumFrequency(add[1..]);
      }
    }
  }

  /** Each index with a positive count has exactly one leaf; the others have none. */
  lemma {:induction false} PositiveLeavesMultiplicity(count: seq<int>)
    ensures forall i :: 0 <= i < |count| ==>
      multiset(PositiveLeaves(count))[LeafNode(count[i], i)] == if count[i] > 0 then 1 else 0
    decreases |count|
  {
    if count != [] {
      var i := |count| - 1;
      var pre := count[..i];
      PositiveLeavesMultiplicity(pre);
      PositiveLeavesShape(pre);
      var p := PositiveLeaves(pre);
      var add := if count[i] > 0 then [LeafNode(count[i], i)] else [];
      assert PositiveLeaves(count) == p + add;
      forall k | 0 <= k < |p| ensures p[k] != LeafNode(count[i], i) {
        assert p[k].charValue < i;
      }
      assert LeafNode(count[i], i) !in p;
      forall j | 0 <= j < |count|
        ensures multiset(p + add)[LeafNode(count[j], j)] == if count[j] > 0 then 1 else 0
      {
        if j < i {
          assert pre[j] == count[j];
          assert LeafNode(count[j], j) != LeafNode(count[i], i);
        }
      }
    }
  }

  /**
   * The starting queue holds only leaves: each is `(count[i], i)` for a
   * positive count or the end-of-stream leaf `(1, count.length)`; its
   * frequencies sum to the positive counts plus one.
   */
  lemma InitialQueueShape(count: seq<int>)
    ensures AllNodes(InitialQueue(count))
    ensures |InitialQueue(count)| == PositiveCount(count) + 1
    ensures SumFrequency(InitialQueue(count)) == PositiveSum(count) + 1
    ensures forall k :: 0 <= k < |InitialQueue(count)| ==>
      var x := InitialQueue(count)[k];
      && IsLeaf(x) && 0 <= x.charValue <= |count|
      && (x.charValue < |count| ==> count[x.charValue] > 0 && x == LeafNode(count[x.charValue], x.charValue))
      && (x.charValue == |count| ==> x == LeafNode(1, |count|))
  {
    var p := PositiveLeaves(count);
    var eof := LeafNode(1, |count|);
    PositiveLeavesShape(count);
    PositiveLeavesWeight(count);
    SumFrequencyAppend(p, [eof]);
    assert SumFrequency([eof]) == 1 + SumFrequency([]);
  }

  /**
   * The starting queue holds exactly one leaf `(count[i], i)` for each
   * positive count, none for the other indices, and exactly one
   * end-of-stream leaf `(1, count.length)`.
   */
  lemma InitialQueueMultiplicity(count: seq<int>)
    ensures forall i :: 0 <= i < |count| ==>
      multiset(InitialQueue(count))[LeafNode(count[i], i)] == if count[i] > 0 then 1 else 0
    ensures multiset(InitialQueue(count))[LeafNode(1, |count|)] == 1
  {
    var p := PositiveLeaves(count);
    var eof := LeafNode(1, |count|);
    PositiveLeavesShape(count);
    PositiveLeavesMultiplicity(count);
    forall k | 0 <= k < |p| ensures p[k] != eof {
      assert p[k].charValue < |count|;
    }
    assert eof !in p;
    forall i | 0 <= i < |count|
      ensures multiset(p + [eof])[LeafNode(count[i], i)] == multiset(p)[LeafNode(count[i], i)]
    {
      assert LeafNode(count[i], i) != eof;
    }
  }

  /** One iteration of the loop at lines 27-31: index `i` adds its leaf when its count is positive. */
  lemma PositiveLeavesStep(count: seq<int>, i: int)
    requires 0 <= i < |count|
    ensures PositiveLeaves(count[..i + 1]) ==
      PositiveLeaves(count[..i]) + (if count[i] > 0 then [LeafNode(count[i], i)] else [])
  {
    assert count[..i + 1][..i] == count[..i];
  }

  /** A queue of leaves: the starting queue is its own multiset of leaves, and every tree in it is merged. */
  lemma InitialQueueLeaves(count: seq<int>)
    ensures QueueLeaves(InitialQueue(count)) == multiset(InitialQueue(count))
    ensures AllMerged(InitialQueue(count))
  {
    InitialQueueShape(count);
    QueueLeavesOfLeaves(InitialQueue(count));
  }

  lemma {:induction false} QueueLeavesOfLeaves(q: seq<HuffmanNode>)
    requires forall k :: 0 <= k < |q| ==> IsLeaf(q[k])
    ensures QueueLeaves(q) == multiset(q)
    ensures AllMerged(q)
  {
    if q != [] {
      QueueLeavesOfLeaves(q[1..]);
      assert q == [q[0]] + q[1..];
    }
  }

  /** A queue of one tree: its total is that tree's frequency and its leaves are that tree's leaves. */
  lemma SingletonQueue(t: HuffmanNode)
    requires t.Node?
    ensures SumFrequency([t]) == t.frequency
    ensures QueueLeaves([t]) == multiset(LeafSeq(t))
    ensures AllMerged([t]) <==> Merged(t)
  {
    assert SumFrequency([t]) == t.frequency + SumFrequency([]);
    assert QueueLeaves([t]) == TreeLeaves(t) + QueueLeaves([]);
    TreeLeavesSeq(t);
  }

  /** No node of the starting queue has a negative frequency. */
  lemma InitialQueueNonNegative(count: seq<int>)
    ensures NonNegative(InitialQueue(count))
  {
    InitialQueueShape(count);
  }

  /** Non-negativity depends only on the multiset of nodes. */
  lemma NonNegativeMultiset(a: seq<HuffmanNode>, b: seq<HuffmanNode>)
    requires multiset(a) == multiset(b) && NonNegative(b)
    ensures NonNegative(a)
  {
    forall k | 0 <= k < |a| ensures a[k].Node? && a[k].frequency >= 0 {
      assert a[k] in multiset(b);
    }
  }

  // One merge step

  /** Node `i` has the least frequency in the queue (a node `remove()` may return). */
  predicate IsMinIndex(q: seq<HuffmanNode>, i: int) {
    && AllNodes(q)
    && 0 <= i < |q|
    && forall k :: 0 <= k < |q| ==> q[i].frequency <= q[k].frequency
  }

  lemma {:induction false} MinimumExists(q: seq<HuffmanNode>)
    requires AllNodes(q) && |q| > 0
    ensures exists i :: IsMinIndex(q, i)
  {
    if |q| == 1 {
      assert IsMinIndex(q, 0);
    } else {
      MinimumExists(q[1..]);
      var i :| IsMinIndex(q[1..], i);
      if q[0].frequency <= q[1..][i].frequency {
        assert IsMinIndex(q, 0);
      } else {
        assert IsMinIndex(q, i + 1);
      }
    }
  }

  function RemoveAt(q: seq<HuffmanNode>, i: int): (r: seq<HuffmanNode>)
    requires 0 <= i < |q|
    ensures |r| == |q| - 1
    ensures AllNodes(q) ==> AllNodes(r)
  {
    q[..i] + q[i + 1..]
  }

  /** Every tree in the queue is a merged tree. */
  predicate AllMerged(q: seq<HuffmanNode>) {
    forall k :: 0 <= k < |q| ==> Merged(q[k])
  }

  /** The leaves of all the trees in the queue. */
  function QueueLeaves(q: seq<HuffmanNode>): multiset<HuffmanNode> {
    if q == [] then multiset{} else TreeLeaves(q[0]) + QueueLeaves(q[1..])
  }

  lemma {:induction false} QueueLeavesAppend(a: seq<HuffmanNode>, b: seq<HuffmanNode>)
    ensures QueueLeaves(a + b) == QueueLeaves(a) + QueueLeaves(b)
  {
    if a == [] {
      assert a + b == b;
    } else {
      assert (a + b)[1..] == a[1..] + b;
      QueueLeavesAppend(a[1..], b);
    }
  }

  lemma RemoveAtSplit(q: seq<HuffmanNode>, i: int)
    requires 0 <= i < |q|
    ensures q == q[..i] + [q[i]] + q[i + 1..]
    ensures RemoveAt(q, i) == q[..i] + q[i + 1..]
  {
  }

  lemma RemoveAtMultiset(q: seq<HuffmanNode>, i: int)
    requires 0 <= i < |q|
    ensures multiset(RemoveAt(q, i)) + multiset{q[i]} == multiset(q)
  {
    RemoveAtSplit(q, i);
  }

  lemma RemoveAtSum(q: seq<HuffmanNode>, i: int)
    requires AllNodes(q) && 0 <= i < |q|
    ensures SumFrequency(RemoveAt(q, i)) + q[i].frequency == SumFrequency(q)
  {
    var a, b := q[..i], q[i + 1..];
    RemoveAtSplit(q, i);
    SumFrequencyAppend(a, [q[i]]);
    SumFrequencyAppend(a + [q[i]], b);
    SumFrequencyAppend(a, b);
    assert SumFrequency([q[i]]) == q[i].frequency + SumFrequency([]);
  }

  lemma RemoveAtLeaves(q: seq<HuffmanNode>, i: int)
    requires 0 <= i < |q|
    ensures QueueLeaves(RemoveAt(q, i)) + TreeLeaves(q[i]) == QueueLeaves(q)
  {
    var a, b := q[..i], q[i + 1..];
    RemoveAtSplit(q, i);
    QueueLeavesAppend(a, [q[i]]);
    QueueLeavesAppend(a + [q[i]], b);
    QueueLeavesAppend(a, b);
    assert QueueLeaves([q[i]]) == TreeLeaves(q[i]) + QueueLeaves([]);
  }

  lemma RemoveAtMerged(q: seq<HuffmanNode>, i: int)
    requires 0 <= i < |q| && AllMerged(q)
    ensures AllMerged(RemoveAt(q, i))
  {
    var r := RemoveAt(q, i);
    forall k | 0 <= k < |r| ensures Merged(r[k]) {
      if k < i { assert r[k] == q[k]; } else { assert r[k] == q[k + 1]; }
    }
  }

  /**
   * One step of `buildTree()` when the queue holds more than one node: remove
   * a minimum `min` (node `i`), then a minimum `nextMin` of what is left
   * (node `j`), and add `new HuffmanNode(min.frequency + nextMin.frequency, min, nextMin)`.
   */
  function MergeStep(q: seq<HuffmanNode>, i: int, j: int): seq<HuffmanNode>
    requires IsMinIndex(q, i) && IsMinIndex(RemoveAt(q, i), j)
  {
    var min := q[i];
    var rest := RemoveAt(q, i);
    var nextMin := rest[j];
    RemoveAt(rest, j) + [InternalNode(min.frequency + nextMin.frequency, min, nextMin)]
  }

  /**
   * A merge step takes out two minimum-frequency nodes `a` then `b` (so no
   * node left behind is lighter than `b`, and `b` is no lighter than `a`),
   * puts in one node with children `a`, `b` and frequency
   * `a.frequency + b.frequency`, shrinks the queue by one and keeps the total
   * frequency, the multiset of leaves and the merged shape of every tree.
   */
  lemma MergeStepFacts(q: seq<HuffmanNode>, i: int, j: int)
    requires IsMinIndex(q, i) && IsMinIndex(RemoveAt(q, i), j)
    ensures var a, b := q[i], RemoveAt(q, i)[j];
      var r := MergeStep(q, i, j);
      && |r| == |q| - 1
      && AllNodes(r)
      && r[|r| - 1] == InternalNode(a.frequency + b.frequency, a, b)
      && multiset(r[..|r| - 1]) + multiset{a, b} == multiset(q)
      && a.frequency <= b.frequency
      && (forall k :: 0 <= k < |r| - 1 ==> b.frequency <= r[k].frequency)
      && SumFrequency(r) == SumFrequency(q)
      && QueueLeaves(r) == QueueLeaves(q)
      && (AllMerged(q) ==> AllMerged(r))
  {
    MergeStepShape(q, i, j);
    MergeStepSum(q, i, j);
    MergeStepLeaves(q, i, j);
    if AllMerged(q) {
      MergeStepMerged(q, i, j);
    }
  }

  /** What one merge step leaves: the queue without its two minima, then their merge. */
  lemma MergeStepSplit(q: seq<HuffmanNode>, i: int, j: int)
    requires IsMinIndex(q, i) && IsMinIndex(RemoveAt(q, i), j)
    ensures var a, b := q[i], RemoveAt(q, i)[j];
      var r := MergeStep(q, i, j);
      && |r| == |q| - 1
      && r[..|r| - 1] == RemoveAt(RemoveAt(q, i), j)
      && r == RemoveAt(RemoveAt(q, i), j) + [InternalNode(a.frequency + b.frequency, a, b)]
  {
  }

  lemma MergeStepShape(q: seq<HuffmanNode>, i: int, j: int)
    requires IsMinIndex(q, i) && IsMinIndex(RemoveAt(q, i), j)
    ensures var a, b := q[i], RemoveAt(q, i)[j];
      var r := MergeStep(q, i, j);
      && |r| == |q| - 1
      && AllNodes(r)
      && r[|r| - 1] == InternalNode(a.frequency + b.frequency, a, b)
      && multiset(r[..|r| - 1]) + multiset{a, b} == multiset(q)
      && a.frequency <= b.frequency
      && (forall k :: 0 <= k < |r| - 1 ==> b.frequency <= r[k].frequency)
  {
    var a := q[i];
    var rest := RemoveAt(q, i);
    var b := rest[j];
    var left := RemoveAt(rest, j);
    MergeStepSplit(q, i, j);
    RemoveAtMultiset(q, i);
    RemoveAtMultiset(rest, j);
    assert multiset(left) + multiset{a, b} == multiset(q);
    forall k | 0 <= k < |left| ensures b.frequency <= left[k].frequency {
      if k < j { assert left[k] == rest[k]; } else { assert left[k] == rest[k + 1]; }
    }
  }

  lemma MergeStepSum(q: seq<HuffmanNode>, i: int, j: int)
    requires IsMinIndex(q, i) && IsMinIndex(RemoveAt(q, i), j)
    ensures AllNodes(MergeStep(q, i, j))
    ensures SumFrequency(MergeStep(q, i, j)) == SumFrequency(q)
  {
    var a := q[i];
    var rest := RemoveAt(q, i);
    var b := rest[j];
    var left := RemoveAt(rest, j);
    var node := InternalNode(a.frequency + b.frequency, a, b);
    MergeStepSplit(q, i, j);
    RemoveAtSum(q, i);
    RemoveAtSum(rest, j);
    SumFrequencyAppend(left, [node]);
    assert SumFrequency([node]) == node.frequency + SumFrequency([]);
  }

  lemma MergeStepLeaves(q: seq<HuffmanNode>, i: int, j: int)
    requires IsMinIndex(q, i) && IsMinIndex(RemoveAt(q, i), j)
    ensures QueueLeaves(MergeStep(q, i, j)) == QueueLeaves(q)
  {
    MergeStepSplit(q, i, j);
    RemoveTwoLeaves(q, i, j);
  }

  /** Taking out nodes `i` then `j` and adding their merge keeps the leaves of the queue. */
  lemma RemoveTwoLeaves(q: seq<HuffmanNode>, i: int, j: int)
    requires 0 <= i < |q| && 0 <= j < |q| - 1
    requires q[i].Node? && RemoveAt(q, i)[j].Node?
    ensures var a, b := q[i], RemoveAt(q, i)[j];
      QueueLeaves(RemoveAt(RemoveAt(q, i), j) + [InternalNode(a.frequency + b.frequency, a, b)]) == QueueLeaves(q)
  {
    RemoveAtLeaves(q, i);
    RemoveAndMerge(RemoveAt(q, i), j, q[i]);
  }

  /** Taking out node `j` and adding its merge with `a` adds the leaves of `a`. */
  lemma RemoveAndMerge(rest: seq<HuffmanNode>, j: int, a: HuffmanNode)
    requires 0 <= j < |rest| && a.Node? && rest[j].Node?
    ensures var b := rest[j];
      QueueLeaves(RemoveAt(rest, j) + [InternalNode(a.frequency + b.frequency, a, b)]) ==
        QueueLeaves(rest) + TreeLeaves(a)
  {
    var b := rest[j];
    var left := RemoveAt(rest, j);
    var node := InternalNode(a.frequency + b.frequency, a, b);
    RemoveAtLeaves(rest, j);
    QueueLeavesAppend(left, [node]);
    MergedLeaves(a, b);
    SwapLast(QueueLeaves(left), TreeLeaves(a), TreeLeaves(b));
  }

  lemma SwapLast<T>(l: multiset<T>, a: multiset<T>, b: multiset<T>)
    ensures l + (a + b) == (l + b) + a
  {
  }

  /** The leaves of a merge of two nodes are the leaves of both. */
  lemma MergedLeaves(a: HuffmanNode, b: HuffmanNode)
    requires a.Node? && b.Node?
    ensures QueueLeaves([InternalNode(a.frequency + b.frequency, a, b)]) == TreeLeaves(a) + TreeLeaves(b)
  {
    var node := InternalNode(a.frequency + b.frequency, a, b);
    assert QueueLeaves([node]) == TreeLeaves(node) + QueueLeaves([]);
  }

  lemma MergeStepMerged(q: seq<HuffmanNode>, i: int, j: int)
    requires IsMinIndex(q, i) && IsMinIndex(RemoveAt(q, i), j)
    requires AllMerged(q)
    ensures AllMerged(MergeStep(q, i, j))
  {
    var a := q[i];
    var rest := RemoveAt(q, i);
    var b := rest[j];
    var left := RemoveAt(rest, j);
    var node := InternalNode(a.frequency + b.frequency, a, b);
    var r := MergeStep(q, i, j);
    MergeStepSplit(q, i, j);
    RemoveAtMerged(q, i);
    RemoveAtMerged(rest, j);
    assert Merged(a) && Merged(b);
    assert Merged(node);
    forall k | 0 <= k < |r| ensures Merged(r[k]) {
      if k < |left| { assert r[k] == left[k]; }
    }
  }

  // A whole run of `buildTree()`

  /**
   * The queue after the merge steps `steps`, in order, starting from `q`:
   * each step `(i, j)` must take a minimum `i` and then a minimum `j` of what
   * is left, as the two `remove()` calls at lines 125-126 do. `None` when
   * some step does not.
   */
  function MergeRun(q: seq<HuffmanNode>, steps: seq<(int, int)>): Option<seq<HuffmanNode>>
    decreases |steps|
  {
    if steps == [] then Some(q)
    else
      var prev := MergeRun(q, steps[..|steps| - 1]);
      var (i, j) := steps[|steps| - 1];
      if prev.Some? && IsMinIndex(prev.value, i) && IsMinIndex(RemoveAt(prev.value, i), j)
      then Some(MergeStep(prev.value, i, j))
      else None
  }

  /** Appending one minimum-taking step to a run extends it by that merge. */
  lemma MergeRunStep(q: seq<HuffmanNode>, steps: seq<(int, int)>, r: seq<HuffmanNode>, i: int, j: int)
    requires MergeRun(q, steps) == Some(r)
    requires IsMinIndex(r, i) && IsMinIndex(RemoveAt(r, i), j)
    ensures MergeRun(q, steps + [(i, j)]) == Some(MergeStep(r, i, j))
  {
    assert (steps + [(i, j)])[..|steps|] == steps;
  }

  /**
   * A run of greedy merges takes one node off the queue per step and keeps
   * the total frequency, the multiset of leaves and the merged shape.
   */
  lemma {:induction false} MergeRunFacts(q: seq<HuffmanNode>, steps: seq<(int, int)>)
    requires AllNodes(q) && MergeRun(q, steps).Some?
    ensures var r := MergeRun(q, steps).value;
      && |r| == |q| - |steps|
      && AllNodes(r)
      && SumFrequency(r) == SumFrequency(q)
      && QueueLeaves(r) == QueueLeaves(q)
      && (AllMerged(q) ==> AllMerged(r))
    decreases |steps|
  {
    if steps != [] {
      var pre := steps[..|steps| - 1];
      var (i, j) := steps[|steps| - 1];
      MergeRunFacts(q, pre);
      MergeStepFacts(MergeRun(q, pre).value, i, j);
    }
  }

  /**
   * For the frequencies of the queue, which are non-negative ints, taking a
   * least frequency is taking a node that `compareTo` ranks no higher than
   * any other, the order `java.util.PriorityQueue` uses.
   */
  lemma IsMinIndexCompareTo(q: seq<HuffmanNode>, i: int)
    requires AllNodes(q) && 0 <= i < |q|
    requires forall k :: 0 <= k < |q| ==> 0 <= q[k].frequency <= INT_MAX
    ensures IsMinIndex(q, i) <==> forall k :: 0 <= k < |q| ==> CompareTo(q[i], q[k]) <= 0
  {
  }
}
