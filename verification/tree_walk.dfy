/**
  `inorder`: the depth-first walk that turns the tree into records. Left
  subtrees come first; every node whose character is not the interior
  marker yields one record whose code is its root-to-node path ('0' for
  left, '1' for right) and whose length is that path's length.
*/
module TreeWalk {
  import opened Types
  import opened Binary
  import opened Nodes
  import opened Codes

  /** The number of nodes whose character is not the interior marker. */
  function MarkedCount(t: Tree): nat {
    match t
    case Nil => 0
    case Node(l, c, _, r) => MarkedCount(l) + (if c != INTERIOR then 1 else 0) + MarkedCount(r)
  }

  /** The node reached from `t` by following `path`, or Nil if it leaves the tree. */
  function At(t: Tree, path: Bits): Tree
    decreases |path|
  {
    if |path| == 0 || t == Nil then (if |path| == 0 then t else Nil)
    else At(if path[0] then t.right else t.left, path[1..])
  }

  /** `inorder(node, binary, list)`: the records appended to the list. */
  function InOrder(node: Tree, binary: Bits): (r: seq<Huffman>)
    ensures |r| == MarkedCount(node)
    ensures forall i :: 0 <= i < |r| ==>
      IsPrefix(binary, r[i].binary) && r[i].length == |r[i].binary| && r[i].character != INTERIOR
  {
    match node
    case Nil => []
    case Node(l, c, _, right) =>
      InOrder(l, binary + [false])
      + (if c != INTERIOR then [Huffman(c, binary, |binary|)] else [])
      + InOrder(right, binary + [true])
  }

  /** Every record names the node at the end of its path, below the walk's start. */
  lemma {:induction false} InOrderPaths(node: Tree, binary: Bits)
    ensures forall i :: 0 <= i < |InOrder(node, binary)| ==>
      var h := InOrder(node, binary)[i];
      At(node, h.binary[|binary|..]).Node? && At(node, h.binary[|binary|..]).character == h.character
  {
    match node
    case Nil =>
    case Node(l, c, _, right) =>
      var bl, br := binary + [false], binary + [true];
      var left, rightRecs := InOrder(l, bl), InOrder(right, br);
      var mid: seq<Huffman> := if c != INTERIOR then [Huffman(c, binary, |binary|)] else [];
      var all := InOrder(node, binary);
      assert all == left + mid + rightRecs;
      InOrderPaths(l, bl);
      InOrderPaths(right, br);
      forall i | 0 <= i < |all|
        ensures At(node, all[i].binary[|binary|..]).Node?
        ensures At(node, all[i].binary[|binary|..]).character == all[i].character
      {
        if i < |left| {
          assert all[i] == left[i];
          StepDown(node, binary, false, all[i].binary);
        } else if i < |left| + |mid| {
          assert all[i] == mid[0];
          assert all[i].binary[|binary|..] == [];
        } else {
          assert all[i] == rightRecs[i - |left| - |mid|];
          StepDown(node, binary, true, all[i].binary);
        }
      }
  }

  /** Following a code below `binary` first takes the step its next bit names. */
  lemma StepDown(node: Tree, binary: Bits, bit: bool, code: Bits)
    requires node.Node? && IsPrefix(binary + [bit], code)
    ensures At(node, code[|binary|..]) == At(if bit then node.right else node.left, code[|binary + [bit]|..])
  {
    var path := code[|binary|..];
    assert code[..|binary + [bit]|][|binary|] == bit;
    assert path[0] == bit;
    assert path[1..] == code[|binary + [bit]|..];
  }

  /** `Node(char, int)` yields one record at its own path, unless its character is the marker. */
  lemma LeafWalk(c: Char, f: int, binary: Bits)
    ensures InOrder(Leaf(c, f), binary) ==
      (if c != INTERIOR then [Huffman(c, binary, |binary|)] else [])
  {
  }

  /** A node built by `Node(int)` is invisible to the walk. */
  lemma MarkerWalk(f: int, binary: Bits)
    ensures InOrder(Marker(f), binary) == []
  {
  }

  /** A merged node contributes nothing itself: its records are its children's, left first. */
  lemma MergeWalk(x: Tree, y: Tree, binary: Bits)
    requires x.Node? && y.Node?
    ensures InOrder(Merge(x, y), binary) == InOrder(x, binary + [false]) + InOrder(y, binary + [true])
  {
  }

  /** The walk of a shaped tree has pairwise prefix-free codes. */
  lemma {:induction false} ShapedWalkPrefixFree(t: Tree, binary: Bits)
    requires Shaped(t)
    ensures PrefixFree(InOrder(t, binary))
  {
    if !IsLeaf(t) {
      var a, b := InOrder(t.left, binary + [false]), InOrder(t.right, binary + [true]);
      assert InOrder(t, binary) == a + b;
      ShapedWalkPrefixFree(t.left, binary + [false]);
      ShapedWalkPrefixFree(t.right, binary + [true]);
      PrefixFreeJoin(a, b, binary);
    }
  }

  /** No leaf of the tree carries the interior marker. */
  predicate LeavesUnmarked(t: Tree) {
    forall i :: 0 <= i < |LeafList(t)| ==> LeafList(t)[i].Node? && LeafList(t)[i].character != INTERIOR
  }

  lemma ChildLeavesUnmarked(t: Tree)
    requires Shaped(t) && !IsLeaf(t) && LeavesUnmarked(t)
    ensures LeavesUnmarked(t.left) && LeavesUnmarked(t.right)
  {
    var a, b := LeafList(t.left), LeafList(t.right);
    assert LeafList(t) == a + b;
    forall i | 0 <= i < |a| ensures a[i].Node? && a[i].character != INTERIOR {
      assert a[i] == LeafList(t)[i];
    }
    forall i | 0 <= i < |b| ensures b[i].Node? && b[i].character != INTERIOR {
      assert b[i] == LeafList(t)[|a| + i];
    }
  }

  /**
    On a shaped tree whose leaves are unmarked the walk emits exactly one
    record per leaf, in leaf order.
  */
  lemma {:induction false} ShapedWalkLeaves(t: Tree, binary: Bits)
    requires Shaped(t) && LeavesUnmarked(t)
    ensures |InOrder(t, binary)| == |LeafList(t)|
    ensures forall i :: 0 <= i < |LeafList(t)| ==>
      LeafList(t)[i].Node? && InOrder(t, binary)[i].character == LeafList(t)[i].character
  {
    var r := InOrder(t, binary);
    if IsLeaf(t) {
      LeafOnly(t, binary);
    } else {
      ChildLeavesUnmarked(t);
      ShapedChildren(t);
      var bl, br := binary + [false], binary + [true];
      ShapedSplit(t, binary);
      assert LeafList(t) == LeafList(t.left) + LeafList(t.right);
      ShapedWalkLeaves(t.left, bl);
      ShapedWalkLeaves(t.right, br);
      LeavesJoin(InOrder(t.left, bl), InOrder(t.right, br), LeafList(t.left), LeafList(t.right));
    }
  }

  /** Below a node with children, the walk is the left subtree's walk, then the right's. */
  lemma ShapedSplit(t: Tree, binary: Bits)
    requires Shaped(t) && !IsLeaf(t)
    ensures InOrder(t, binary) == InOrder(t.left, binary + [false]) + InOrder(t.right, binary + [true])
  {
    var a, b := InOrder(t.left, binary + [false]), InOrder(t.right, binary + [true]);
    assert t.character == INTERIOR;
    assert InOrder(t, binary) == a + [] + b;
    assert a + [] == a;
  }

  /** The children of a node with children are shaped and lower. */
  lemma ShapedChildren(t: Tree)
    requires Shaped(t) && !IsLeaf(t)
    ensures Shaped(t.left) && Shaped(t.right)
    ensures Height(t.left) < Height(t) && Height(t.right) < Height(t)
  {
  }

  /** Records that carry their leaves' characters position by position still do when joined. */
  lemma LeavesJoin(a: seq<Huffman>, b: seq<Huffman>, la: seq<Tree>, lb: seq<Tree>)
    requires |a| == |la| && |b| == |lb|
    requires forall i :: 0 <= i < |la| ==> la[i].Node? && a[i].character == la[i].character
    requires forall i :: 0 <= i < |lb| ==> lb[i].Node? && b[i].character == lb[i].character
    ensures forall i :: 0 <= i < |la + lb| ==> (la + lb)[i].Node? && (a + b)[i].character == (la + lb)[i].character
  {
    forall i | 0 <= i < |la + lb| ensures (la + lb)[i].Node? && (a + b)[i].character == (la + lb)[i].character {
      if i >= |a| {
        assert (a + b)[i] == b[i - |a|] && (la + lb)[i] == lb[i - |la|];
      }
    }
  }

  /** The walk of an unmarked leaf is the one record at the walk's start. */
  lemma LeafOnly(t: Tree, binary: Bits)
    requires IsLeaf(t) && LeavesUnmarked(t)
    ensures InOrder(t, binary) == [Huffman(t.character, binary, |binary|)]
  {
    assert LeafList(t) == [t];
    assert LeafList(t)[0] == t;
  }

  /**
    The records of a shaped tree lie between the walk's start and its
    height below it; below a node with children they lie strictly deeper.
  */
  lemma {:induction false} ShapedWalkDepths(t: Tree, binary: Bits)
    requires Shaped(t)
    ensures forall i :: 0 <= i < |InOrder(t, binary)| ==>
      |binary| <= InOrder(t, binary)[i].length <= |binary| + Height(t)
    ensures !IsLeaf(t) ==> forall i :: 0 <= i < |InOrder(t, binary)| ==>
      |binary| < InOrder(t, binary)[i].length
  {
    var r := InOrder(t, binary);
    if !IsLeaf(t) {
      var bl, br := binary + [false], binary + [true];
      var a, b := InOrder(t.left, bl), InOrder(t.right, br);
      ShapedSplit(t, binary);
      ShapedChildren(t);
      ShapedWalkDepths(t.left, bl);
      ShapedWalkDepths(t.right, br);
      DepthsJoin(a, b, |binary|, Height(t));
    }
  }

  /** Records strictly deeper than a depth, and no deeper than a bound, stay so when joined. */
  lemma DepthsJoin(a: seq<Huffman>, b: seq<Huffman>, depth: nat, height: nat)
    requires forall i :: 0 <= i < |a| ==> depth < a[i].length <= depth + height
    requires forall i :: 0 <= i < |b| ==> depth < b[i].length <= depth + height
    ensures forall i :: 0 <= i < |a + b| ==> depth < (a + b)[i].length <= depth + height
  {
    forall i | 0 <= i < |a + b| ensures depth < (a + b)[i].length <= depth + height {
      if i >= |a| {
        assert (a + b)[i] == b[i - |a|];
      }
    }
  }

  /**
    Kraft equality for the walk of a full tree: when no leaf is dropped and
    every depth fits, the lengths of the records below `binary` add up to
    2^-|binary|.
  */
  lemma {:induction false} ShapedWalkKraft(t: Tree, binary: Bits)
    requires Shaped(t) && LeavesUnmarked(t)
    requires |binary| + Height(t) <= MAX_LENGTH
    ensures KraftUnits(InOrder(t, binary)) == Pow2(MAX_LENGTH - |binary|)
  {
    if IsLeaf(t) {
      LeafOnly(t, binary);
      assert InOrder(t, binary)[1..] == [];
    } else {
      ChildLeavesUnmarked(t);
      var bl, br := binary + [false], binary + [true];
      var a, b := InOrder(t.left, bl), InOrder(t.right, br);
      ShapedSplit(t, binary);
      ShapedChildren(t);
      ShapedWalkKraft(t.left, bl);
      ShapedWalkKraft(t.right, br);
      KraftAppend(a, b);
      assert Pow2(MAX_LENGTH - |binary|) == 2 * Pow2(MAX_LENGTH - |bl|);
    }
  }
}
