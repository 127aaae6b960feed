/**
 * Reconstruction of a code tree from `(charValue, code)` pairs: the private
 * `buildTree(code, charValue, root)` (HuffmanTree.java:96-117) and the loop
 * of the Scanner constructor that calls it for every pair (lines 45-53).
 */
module Rebuilding {

  import opened Nodes
  import opened Codes

  /**
   * The contents of a child slot after `buildTree(code, charValue, ·)` has
   * run on it. A `Null` slot stands for the call on `new HuffmanNode()` at
   * line 104 or 110 whose result the caller stores in the empty child; any
   * other node stands for a call on an existing node, whose result is then
   * dropped (line 106, 112 or the constructor's loop) so that only its
   * updates in place remain. Hence an empty code makes a leaf
   * `(0, charValue)` in an empty slot (line 99) and changes nothing
   * elsewhere; '0' descends left and any other character right, creating a
   * missing child and reusing an existing one.
   */
  function BuildTree(root: HuffmanNode, code: string, charValue: int): HuffmanNode
    decreases |code|
  {
    if code == "" then
      if root.Null? then LeafNode(0, charValue) else root
    else
      var node := if root.Null? then Placeholder() else root;
      if code[0] == '0' then node.(left := BuildTree(node.left, code[1..], charValue))
      else node.(right := BuildTree(node.right, code[1..], charValue))
  }

  /** The tree after the constructor's loop has read `lines` in order, starting from `root`. */
  function Rebuild(root: HuffmanNode, lines: seq<(int, string)>): HuffmanNode
    decreases |lines|
  {
    if lines == [] then root
    else
      var last := lines[|lines| - 1];
      BuildTree(Rebuild(root, lines[..|lines| - 1]), last.1, last.0)
  }

  /** The route a code takes: '0' stays '0', every other character goes right, as '1'. */
  function Route(code: string): (r: string)
    ensures |r| == |code| && IsBinary(r)
    ensures forall m :: 0 <= m < |code| ==> (r[m] == '0' <==> code[m] == '0')
  {
    seq(|code|, m requires 0 <= m < |code| => if code[m] == '0' then '0' else '1')
  }

  lemma {:induction false} FollowRoute(n: HuffmanNode, path: string)
    ensures Follow(n, path) == Follow(n, Route(path))
    decreases |path|
  {
    if path != "" && n.Node? {
      assert Route(path)[1..] == Route(path[1..]);
      FollowRoute(if path[0] == '0' then n.left else n.right, path[1..]);
    }
  }

  /** Inserting along a route that ends in a missing node puts a leaf `(0, charValue)` there. */
  lemma {:induction false} BuildTreeFreeRoute(root: HuffmanNode, code: string, charValue: int)
    requires Follow(root, code).Null?
    ensures Follow(BuildTree(root, code, charValue), code) == LeafNode(0, charValue)
    decreases |code|
  {
    if code != "" {
      var node := if root.Null? then Placeholder() else root;
      var child := if code[0] == '0' then node.left else node.right;
      if root.Null? {
        FollowNull(code[1..]);
      }
      BuildTreeFreeRoute(child, code[1..], charValue);
    }
  }

  /**
   * Where the route of an insertion passes a missing node (line 104 or 110),
   * that node is created as `new HuffmanNode()`: frequency 0, charValue 0.
   */
  lemma {:induction false} BuildTreeFreshPlaceholders(root: HuffmanNode, code: string, charValue: int, m: int)
    requires 0 <= m < |code| && Follow(root, code[..m]).Null?
    ensures Follow(BuildTree(root, code, charValue), code[..m]).Node?
    ensures Follow(BuildTree(root, code, charValue), code[..m]).frequency == 0
    ensures Follow(BuildTree(root, code, charValue), code[..m]).charValue == 0
    decreases |code|
  {
    if m > 0 {
      var goLeft := code[0] == '0';
      var child := if root.Null? then Null else if goLeft then root.left else root.right;
      assert code[..m][0] == code[0];
      assert code[..m][1..] == code[1..][..m - 1];
      if root.Null? {
        FollowNull(code[1..][..m - 1]);
      }
      BuildTreeFreshPlaceholders(child, code[1..], charValue, m - 1);
    }
  }

  /**
   * Inserting along a route that ends in an existing node changes nothing:
   * the leaf made at line 99 is dropped, so the first pair given a path wins.
   */
  lemma {:induction false} BuildTreeTaken(root: HuffmanNode, code: string, charValue: int)
    requires root.Node? && Follow(root, code).Node?
    ensures BuildTree(root, code, charValue) == root
    decreases |code|
  {
    if code != "" {
      var child := if code[0] == '0' then root.left else root.right;
      BuildTreeTaken(child, code[1..], charValue);
    }
  }

  /** Nodes off the route are unchanged. */
  lemma {:induction false} BuildTreeOffRoute(root: HuffmanNode, code: string, charValue: int, path: string)
    requires !(Route(path) <= Route(code))
    ensures Follow(BuildTree(root, code, charValue), path) == Follow(root, path)
    decreases |code|
  {
    var t := BuildTree(root, code, charValue);
    if code == "" {
      if root.Null? {
        assert path != "";
        FollowNull(path[1..]);
        FollowNull(path);
      }
    } else {
      assert path != "";
      var node := if root.Null? then Placeholder() else root;
      var goLeft := code[0] == '0';
      var child := if goLeft then node.left else node.right;
      if root.Null? {
        FollowNull(path);
        FollowNull(path[1..]);
      }
      if (path[0] == '0') == goLeft {
        assert Route(path) == [Route(path)[0]] + Route(path[1..]);
        assert Route(code) == [Route(code)[0]] + Route(code[1..]);
        assert Route(path)[0] == Route(code)[0];
        assert !(Route(path[1..]) <= Route(code[1..]));
        BuildTreeOffRoute(child, code[1..], charValue, path[1..]);
      }
    }
  }

  /**
   * Nodes that already exist on the route are reused: they keep their
   * frequency and charValue.
   */
  lemma {:induction false} BuildTreeReusesRoute(root: HuffmanNode, code: string, charValue: int, path: string)
    requires Route(path) <= Route(code) && Follow(root, path).Node?
    ensures Follow(BuildTree(root, code, charValue), path).Node?
    ensures Follow(BuildTree(root, code, charValue), path).frequency == Follow(root, path).frequency
    ensures Follow(BuildTree(root, code, charValue), path).charValue == Follow(root, path).charValue
    decreases |code|
  {
    if path != "" {
      assert root.Node?;
      var goLeft := code[0] == '0';
      var child := if goLeft then root.left else root.right;
      assert Route(path)[0] == Route(code)[0];
      assert (path[0] == '0') == goLeft;
      assert Route(path[1..]) <= Route(code[1..]) by {
        assert Route(path)[1..] == Route(path[1..]);
        assert Route(code)[1..] == Route(code[1..]);
      }
      BuildTreeReusesRoute(child, code[1..], charValue, path[1..]);
    }
  }

  lemma {:induction false} RebuildAppend(root: HuffmanNode, a: seq<(int, string)>, b: seq<(int, string)>)
    ensures Rebuild(root, a + b) == Rebuild(Rebuild(root, a), b)
    decreases |b|
  {
    if b == [] {
      assert a + b == a;
    } else {
      var n := |b| - 1;
      assert (a + b)[..|a + b| - 1] == a + b[..n];
      assert (a + b)[|a + b| - 1] == b[n];
      RebuildAppend(root, a, b[..n]);
    }
  }

  /** What a slot holds once an insertion has passed through it. */
  function Filled(n: HuffmanNode): (r: HuffmanNode)
    ensures r.Node?
  {
    if n.Null? then Placeholder() else n
  }

  /** Inserting pairs whose paths all start with '0' rebuilds only the left subtree. */
  lemma {:induction false} RebuildLeft(root: HuffmanNode, lines: seq<(int, string)>)
    requires root.Node? || lines != []
    ensures var f := Filled(root); Rebuild(root, Prepend("0", lines)) == f.(left := Rebuild(f.left, lines))
    decreases |lines|
  {
    var p := Prepend("0", lines);
    if lines != [] {
      var n := |lines| - 1;
      assert p[..n] == Prepend("0", lines[..n]);
      var last := lines[n];
      assert p[n] == (last.0, "0" + last.1);
      assert ("0" + last.1)[1..] == last.1;
      if root.Null? && n == 0 {
        assert lines[..n] == [];
      } else {
        RebuildLeft(root, lines[..n]);
      }
    }
  }

  /** Inserting pairs whose paths all start with '1' rebuilds only the right subtree. */
  lemma {:induction false} RebuildRight(root: HuffmanNode, lines: seq<(int, string)>)
    requires root.Node? || lines != []
    ensures var f := Filled(root); Rebuild(root, Prepend("1", lines)) == f.(right := Rebuild(f.right, lines))
    decreases |lines|
  {
    var p := Prepend("1", lines);
    if lines != [] {
      var n := |lines| - 1;
      assert p[..n] == Prepend("1", lines[..n]);
      var last := lines[n];
      assert p[n] == (last.0, "1" + last.1);
      assert ("1" + last.1)[1..] == last.1;
      if root.Null? && n == 0 {
        assert lines[..n] == [];
      } else {
        RebuildRight(root, lines[..n]);
      }
    }
  }

  /**
   * The shape of a tree as reconstruction leaves it: the same structure and
   * leaf charValues, every frequency 0, every internal charValue 0.
   */
  function Skeleton(n: HuffmanNode): HuffmanNode {
    if n.Null? then Null
    else if IsLeaf(n) then LeafNode(0, n.charValue)
    else Node(0, 0, Skeleton(n.left), Skeleton(n.right))
  }

  /** The skeleton is full and serialises exactly like the tree. */
  lemma {:induction false} WriteSkeleton(code: string, n: HuffmanNode)
    requires Full(n)
    ensures Full(Skeleton(n))
    ensures IsLeaf(Skeleton(n)) <==> IsLeaf(n)
    ensures Write(code, Skeleton(n)) == Write(code, n)
    decreases n
  {
    if !IsLeaf(n) {
      WriteSkeleton(code + "0", n.left);
      WriteSkeleton(code + "1", n.right);
    }
  }

  /**
   * Feeding a full tree's serialisation into an empty slot, or into the
   * placeholder root when the tree is not a single leaf, rebuilds its
   * skeleton.
   */
  lemma {:induction false} RebuildWrite(root: HuffmanNode, t: HuffmanNode)
    requires Full(t)
    requires root.Null? || (root == Placeholder() && !IsLeaf(t))
    ensures Rebuild(root, Write("", t)) == Skeleton(t)
    decreases t
  {
    if IsLeaf(t) {
      assert Write("", t)[..0] == [];
    } else {
      var wl, wr := Write("", t.left), Write("", t.right);
      WriteShift("0", t.left);
      WriteShift("1", t.right);
      assert Write("", t) == Prepend("0", wl) + Prepend("1", wr) by {
        assert "" + "0" == "0" && "" + "1" == "1";
      }
      WriteLeaves("", t.left);
      WriteLeaves("", t.right);
      RebuildAppend(root, Prepend("0", wl), Prepend("1", wr));
      RebuildLeft(root, wl);
      RebuildWrite(Null, t.left);
      var mid := Placeholder().(left := Skeleton(t.left));
      assert Rebuild(root, Prepend("0", wl)) == mid;
      RebuildRight(mid, wr);
      RebuildWrite(Null, t.right);
    }
  }

  /**
   * Round trip: for a tree that is not a single leaf, the Scanner
   * constructor fed with the pairs `write` emits rebuilds a tree whose own
   * serialisation is identical (same symbols, same paths, same order).
   */
  lemma WriteRebuildWrite(t: HuffmanNode)
    requires Full(t) && !IsLeaf(t)
    ensures Full(Rebuild(Placeholder(), Write("", t)))
    ensures Write("", Rebuild(Placeholder(), Write("", t))) == Write("", t)
  {
    RebuildWrite(Placeholder(), t);
    WriteSkeleton("", t);
  }

  /**
   * For a single leaf the round trip fails: its one pair has the empty code,
   * which changes nothing at the root, so the rebuilt root stays the
   * placeholder with charValue 0.
   */
  lemma SingleLeafRebuild(t: HuffmanNode)
    requires IsLeaf(t)
    ensures Rebuild(Placeholder(), Write("", t)) == Placeholder()
    ensures Write("", Rebuild(Placeholder(), Write("", t))) == [(0, "")]
  {
    assert Write("", t)[..0] == [];
  }
}
