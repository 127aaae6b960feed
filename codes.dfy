/**
 * Serialisation of a code tree: `write(output, code, root)`
 * (HuffmanTree.java:151-159), which prints one `(charValue, path)` pair per
 * leaf, left subtree first, appending "0" to the path when it goes left and
 * "1" when it goes right.
 */
module Codes {

  import opened Nodes

  /** The lines `write` prints, as parsed pairs `(charValue, code)`. */
  function Write(code: string, root: HuffmanNode): seq<(int, string)>
    requires Full(root)
    decreases root
  {
    if IsLeaf(root) then [(root.charValue, code)]
    else Write(code + "0", root.left) + Write(code + "1", root.right)
  }

  /** A path of the characters `write` uses. */
  predicate IsBinary(path: string) {
    forall m :: 0 <= m < |path| ==> path[m] == '0' || path[m] == '1'
  }

  /** `lines` with `code` put in front of every path. */
  function Prepend(code: string, lines: seq<(int, string)>): (r: seq<(int, string)>)
    ensures |r| == |lines|
    ensures forall k :: 0 <= k < |r| ==> r[k] == (lines[k].0, code + lines[k].1)
  {
    seq(|lines|, k requires 0 <= k < |lines| => (lines[k].0, code + lines[k].1))
  }

  /**
   * `write` emits exactly one pair per leaf, in left-to-right leaf order: the
   * k-th pair holds the k-th leaf's charValue, and its path is the starting
   * code followed by a binary route from `root` to that very leaf.
   */
  lemma {:induction false} WriteLeaves(code: string, root: HuffmanNode)
    requires Full(root)
    ensures |Write(code, root)| == |LeafSeq(root)|
    ensures forall k :: 0 <= k < |Write(code, root)| ==>
      && Write(code, root)[k].0 == LeafSeq(root)[k].charValue
      && code <= Write(code, root)[k].1
      && IsBinary(Write(code, root)[k].1[|code|..])
      && Follow(root, Write(code, root)[k].1[|code|..]) == LeafSeq(root)[k]
    decreases root
  {
    var w := Write(code, root);
    if IsLeaf(root) {
      assert w[0].1[|code|..] == "";
    } else {
      var c0, c1 := code + "0", code + "1";
      var wl, wr := Write(c0, root.left), Write(c1, root.right);
      var ll, lr := LeafSeq(root.left), LeafSeq(root.right);
      WriteLeaves(c0, root.left);
      WriteLeaves(c1, root.right);
      assert w == wl + wr;
      assert LeafSeq(root) == ll + lr;
      forall k | 0 <= k < |w|
        ensures w[k].0 == LeafSeq(root)[k].charValue
        ensures code <= w[k].1
        ensures IsBinary(w[k].1[|code|..])
        ensures Follow(root, w[k].1[|code|..]) == LeafSeq(root)[k]
      {
        var c, p, leaf, sub := c0, wl[0].1, root.left, "";
        if k < |wl| {
          c, p, leaf := c0, wl[k].1, ll[k];
          assert w[k] == wl[k];
        } else {
          c, p, leaf := c1, wr[k - |wl|].1, lr[k - |wl|];
          assert w[k] == wr[k - |wl|];
        }
        assert c <= p;
        assert p[..|code|] == c[..|code|] == code;
        sub := p[|code|..];
        assert sub[0] == c[|code|];
        assert sub[1..] == p[|c|..];
        assert IsBinary(sub) by {
          forall m | 0 <= m < |sub| ensures sub[m] == '0' || sub[m] == '1' {
            if m > 0 { assert sub[m] == p[|c|..][m - 1]; }
          }
        }
      }
    }
  }

  /** No emitted path is a prefix of another (nor equal to it): the code is prefix-free. */
  lemma {:induction false} WritePrefixFree(code: string, root: HuffmanNode)
    requires Full(root)
    ensures forall k, l :: 0 <= k < |Write(code, root)| && 0 <= l < |Write(code, root)| && k != l ==>
      !(Write(code, root)[k].1 <= Write(code, root)[l].1)
    decreases root
  {
    if !IsLeaf(root) {
      var c0, c1 := code + "0", code + "1";
      var wl, wr := Write(c0, root.left), Write(c1, root.right);
      var w := Write(code, root);
      WritePrefixFree(c0, root.left);
      WritePrefixFree(c1, root.right);
      WriteLeaves(c0, root.left);
      WriteLeaves(c1, root.right);
      assert w == wl + wr;
      forall k, l | 0 <= k < |w| && 0 <= l < |w| && k != l
        ensures !(w[k].1 <= w[l].1)
      {
        if k < |wl| && l < |wl| {
          assert w[k] == wl[k] && w[l] == wl[l];
        } else if k >= |wl| && l >= |wl| {
          assert w[k] == wr[k - |wl|] && w[l] == wr[l - |wl|];
        } else {
          var a, b := w[k].1, w[l].1;
          var ca, cb := if k < |wl| then c0 else c1, if l < |wl| then c0 else c1;
          if k < |wl| { assert w[k] == wl[k]; } else { assert w[k] == wr[k - |wl|]; }
          if l < |wl| { assert w[l] == wl[l]; } else { assert w[l] == wr[l - |wl|]; }
          assert ca <= a && cb <= b;
          assert a[|code|] == ca[|code|] != cb[|code|] == b[|code|];
        }
      }
    }
  }

  /** Every leaf reached by a binary path appears in the output, with that path. */
  lemma {:induction false} WriteComplete(code: string, root: HuffmanNode, path: string)
    requires Full(root) && IsBinary(path) && IsLeaf(Follow(root, path))
    ensures (Follow(root, path).charValue, code + path) in Write(code, root)
    decreases |path|
  {
    if path == "" {
      assert code + path == code;
    } else {
      if IsLeaf(root) {
        FollowNull(path[1..]);
        assert false;
      }
      var c := if path[0] == '0' then code + "0" else code + "1";
      var child := if path[0] == '0' then root.left else root.right;
      assert IsBinary(path[1..]) by {
        forall m | 0 <= m < |path[1..]| ensures path[1..][m] == '0' || path[1..][m] == '1' {
          assert path[1..][m] == path[m + 1];
        }
      }
      WriteComplete(c, child, path[1..]);
      assert c + path[1..] == code + path by {
        assert path == [path[0]] + path[1..];
      }
    }
  }

  lemma PrependAppend(code: string, a: seq<(int, string)>, b: seq<(int, string)>)
    ensures Prepend(code, a + b) == Prepend(code, a) + Prepend(code, b)
  {
  }

  lemma PrependPrepend(code: string, bit: string, lines: seq<(int, string)>)
    ensures Prepend(code, Prepend(bit, lines)) == Prepend(code + bit, lines)
  {
    forall k | 0 <= k < |lines|
      ensures Prepend(code, Prepend(bit, lines))[k] == Prepend(code + bit, lines)[k]
    {
      assert code + (bit + lines[k].1) == code + bit + lines[k].1;
    }
  }

  /** The starting code only prefixes the paths of the output. */
  lemma {:induction false} WriteShift(code: string, root: HuffmanNode)
    requires Full(root)
    ensures Write(code, root) == Prepend(code, Write("", root))
    decreases root
  {
    if IsLeaf(root) {
      assert code + "" == code;
    } else {
      WriteShift(code + "0", root.left);
      WriteShift(code + "1", root.right);
      WriteShift("0", root.left);
      WriteShift("1", root.right);
      PrependAppend(code, Write("0", root.left), Write("1", root.right));
      PrependPrepend(code, "0", Write("", root.left));
      PrependPrepend(code, "1", Write("", root.right));
      assert "" + "0" == "0" && "" + "1" == "1";
    }
  }
}
