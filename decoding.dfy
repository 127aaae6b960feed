/**
 * Decoding (HuffmanTree.java:64-84): a state machine over tree nodes that
 * reads one bit at every internal node, writes the charValue of every
 * non-eof leaf it reaches and goes back to the root, and stops at the eof
 * leaf. Bits are the ints `readBit` returns: 0 goes left, any other value
 * right.
 */
module Decoding {

  import opened Nodes
  import opened Wrappers

  /** How a run of `decode` ends. */
  datatype Outcome =
    | Done(written: seq<int>, rest: seq<int>)  // the eof leaf was reached; `rest` is left unread
    | NullChild                                // a bit led to a missing child (a NullPointerException)
    | OutOfBits                                // the input ended before the eof leaf
    | Endless                                  // the root is a non-eof leaf: it is written forever

  /** `symbol` written in front of what the rest of the run writes. */
  function Emit(symbol: int, o: Outcome): Outcome {
    if o.Done? then Done([symbol] + o.written, o.rest) else o
  }

  /**
   * The loop at lines 67-83 run from node `temp` with `bits` still unread,
   * one iteration per call. With a root that is not a leaf every return to
   * the root comes after at least one bit, so the run ends.
   */
  function Steps(root: HuffmanNode, temp: HuffmanNode, bits: seq<int>, eof: int): Outcome
    requires root.Node? && !IsLeaf(root)
    decreases |bits|, if IsLeaf(temp) then 1 else 0
  {
    if temp.Null? then NullChild
    else if IsLeaf(temp) then
      if temp.charValue != eof then Emit(temp.charValue, Steps(root, root, bits, eof))
      else Done([], bits)
    else if bits == [] then OutOfBits
    else Steps(root, if bits[0] == 0 then temp.left else temp.right, bits[1..], eof)
  }

  /**
   * `decode(input, output, eof)` on a tree whose root is not null: the loop
   * does not start when the root's charValue already equals `eof`, and
   * never ends when the root is any other leaf.
   */
  function Decode(root: HuffmanNode, bits: seq<int>, eof: int): Outcome
    requires root.Node?
  {
    if root.charValue == eof then Done([], bits)
    else if IsLeaf(root) then Endless
    else Steps(root, root, bits, eof)
  }

  lemma {:induction false} StepsNeverWriteEof(root: HuffmanNode, temp: HuffmanNode, bits: seq<int>, eof: int)
    requires root.Node? && !IsLeaf(root)
    ensures Steps(root, temp, bits, eof).Done? ==> eof !in Steps(root, temp, bits, eof).written
    ensures Steps(root, temp, bits, eof).Done? ==>
      var rest := Steps(root, temp, bits, eof).rest;
      |rest| <= |bits| && rest == bits[|bits| - |rest|..]
    decreases |bits|, if IsLeaf(temp) then 1 else 0
  {
    if temp.Node? {
      if IsLeaf(temp) {
        if temp.charValue != eof {
          StepsNeverWriteEof(root, root, bits, eof);
        }
      } else if bits != [] {
        StepsNeverWriteEof(root, if bits[0] == 0 then temp.left else temp.right, bits[1..], eof);
        var o := Steps(root, if bits[0] == 0 then temp.left else temp.right, bits[1..], eof);
        if o.Done? {
          assert bits[1..][|bits[1..]| - |o.rest|..] == bits[|bits| - |o.rest|..];
        }
      }
    }
  }

  /** A run that ends never writes eof, and what it leaves unread is a suffix of its input. */
  lemma DecodeNeverWritesEof(root: HuffmanNode, bits: seq<int>, eof: int)
    requires root.Node? && Decode(root, bits, eof).Done?
    ensures eof !in Decode(root, bits, eof).written
    ensures |Decode(root, bits, eof).rest| <= |bits|
    ensures Decode(root, bits, eof).rest == bits[|bits| - |Decode(root, bits, eof).rest|..]
  {
    if root.charValue != eof {
      StepsNeverWriteEof(root, root, bits, eof);
    }
  }

  // Encoding, the reference the decoder is checked against

  /** The bits of a path: '0' is 0, every other character 1. */
  function Bits(path: string): (bits: seq<int>)
    ensures |bits| == |path|
    ensures forall m :: 0 <= m < |path| ==> bits[m] == if path[m] == '0' then 0 else 1
  {
    seq(|path|, m requires 0 <= m < |path| => if path[m] == '0' then 0 else 1)
  }

  /** The code of the first pair that carries `symbol`. */
  function Lookup(lines: seq<(int, string)>, symbol: int): (r: Option<string>)
    ensures r.Some? <==> exists k :: 0 <= k < |lines| && lines[k].0 == symbol
    ensures r.Some? ==> (symbol, r.value) in lines
  {
    if lines == [] then None
    else if lines[0].0 == symbol then Some(lines[0].1)
    else
      var r := Lookup(lines[1..], symbol);
      assert forall k :: 1 <= k < |lines| ==> lines[k] == lines[1..][k - 1];
      r
  }

  /** The bits of `message`, each symbol encoded by its code in `lines`. */
  function Encode(lines: seq<(int, string)>, message: seq<int>): seq<int>
    requires forall k :: 0 <= k < |message| ==> Lookup(lines, message[k]).Some?
  {
    if message == [] then []
    else Bits(Lookup(lines, message[0]).value) + Encode(lines, message[1..])
  }

  /** Every pair's code leads from `root` to a leaf carrying the pair's symbol. */
  predicate CodesReachLeaves(root: HuffmanNode, lines: seq<(int, string)>) {
    forall k :: 0 <= k < |lines| ==>
      IsLeaf(Follow(root, lines[k].1)) && Follow(root, lines[k].1).charValue == lines[k].0
  }

  /** Reading the bits of a path from `temp` ends at the leaf the path leads to. */
  lemma {:induction false} StepsAlongPath(root: HuffmanNode, temp: HuffmanNode, path: string, rest: seq<int>, eof: int)
    requires root.Node? && !IsLeaf(root)
    requires IsLeaf(Follow(temp, path))
    ensures var leaf := Follow(temp, path);
      Steps(root, temp, Bits(path) + rest, eof) ==
        if leaf.charValue == eof then Done([], rest) else Emit(leaf.charValue, Steps(root, root, rest, eof))
    decreases |path|
  {
    if path == "" {
      assert Bits(path) + rest == rest;
    } else {
      if temp.Null? {
        assert false;
      }
      if IsLeaf(temp) {
        FollowNull(path[1..]);
        assert false;
      }
      var bits := Bits(path) + rest;
      assert bits[0] == if path[0] == '0' then 0 else 1;
      assert bits[1..] == Bits(path[1..]) + rest;
      StepsAlongPath(root, if path[0] == '0' then temp.left else temp.right, path[1..], rest, eof);
    }
  }

  lemma {:induction false} StepsMessage(root: HuffmanNode, lines: seq<(int, string)>, message: seq<int>, eof: int, rest: seq<int>)
    requires root.Node? && !IsLeaf(root)
    requires CodesReachLeaves(root, lines)
    requires forall k :: 0 <= k < |message| ==> message[k] != eof && Lookup(lines, message[k]).Some?
    requires Lookup(lines, eof).Some?
    ensures Steps(root, root, Encode(lines, message) + Bits(Lookup(lines, eof).value) + rest, eof) == Done(message, rest)
    decreases |message|
  {
    var tail := Bits(Lookup(lines, eof).value) + rest;
    EncodeThen(lines, message, Bits(Lookup(lines, eof).value), rest);
    if message == [] {
      var k :| 0 <= k < |lines| && lines[k] == (eof, Lookup(lines, eof).value);
      StepsAlongPath(root, root, lines[k].1, rest, eof);
    } else {
      var s := message[0];
      var code := Lookup(lines, s).value;
      var j :| 0 <= j < |lines| && lines[j] == (s, code);
      StepsAlongPath(root, root, code, Encode(lines, message[1..]) + tail, eof);
      StepsMessage(root, lines, message[1..], eof, rest);
      EncodeThen(lines, message[1..], Bits(Lookup(lines, eof).value), rest);
      assert [s] + message[1..] == message;
    }
  }

  /** How the encoding of a message followed by more bits splits at its first symbol. */
  lemma EncodeThen(lines: seq<(int, string)>, message: seq<int>, last: seq<int>, rest: seq<int>)
    requires forall k :: 0 <= k < |message| ==> Lookup(lines, message[k]).Some?
    ensures Encode(lines, message) + last + rest == Encode(lines, message) + (last + rest)
    ensures message == [] ==> Encode(lines, message) + (last + rest) == last + rest
    ensures message != [] ==>
      Encode(lines, message) + (last + rest) == Bits(Lookup(lines, message[0]).value) + (Encode(lines, message[1..]) + (last + rest))
  {
  }

  /**
   * Decoding the codes of `message` followed by the code of eof writes
   * exactly `message`, never eof, and consumes exactly those bits, on any
   * tree whose root is internal with a charValue other than eof and where
   * every code leads to a leaf with its symbol.
   */
  lemma DecodeEncoded(root: HuffmanNode, lines: seq<(int, string)>, message: seq<int>, eof: int, rest: seq<int>)
    requires root.Node? && !IsLeaf(root) && root.charValue != eof
    requires CodesReachLeaves(root, lines)
    requires forall k :: 0 <= k < |message| ==> message[k] != eof && Lookup(lines, message[k]).Some?
    requires Lookup(lines, eof).Some?
    ensures Decode(root, Encode(lines, message) + Bits(Lookup(lines, eof).value) + rest, eof) == Done(message, rest)
  {
    StepsMessage(root, lines, message, eof, rest);
  }

  /** With the root's charValue equal to eof, decoding writes nothing and reads nothing. */
  lemma DecodeRootIsEof(root: HuffmanNode, bits: seq<int>)
    requires root.Node?
    ensures Decode(root, bits, root.charValue) == Done([], bits)
  {
  }

  /** A root that is a leaf other than eof makes decoding write forever. */
  lemma DecodeLeafRoot(root: HuffmanNode, bits: seq<int>, eof: int)
    requires IsLeaf(root) && root.charValue != eof
    ensures Decode(root, bits, eof) == Endless
  {
  }
}
