/**
  The tree node of the Huffman tree: a character, a frequency and two
  optional children, ordered by frequency alone.
*/
module Nodes {
  import opened Types

  /** A tree node; `Nil` stands for a null child. */
  datatype Tree = Nil | Node(left: Tree, character: Char, frequency: int, right: Tree)

  predicate IsLeaf(t: Tree) {
    t.Node? && t.left == Nil && t.right == Nil
  }

  /** `Node(char, int)`: a leaf with null children. */
  function Leaf(character: Char, frequency: int): (t: Tree)
    ensures IsLeaf(t) && t.character == character && t.frequency == frequency
  {
    Node(Nil, character, frequency, Nil)
  }

  /**
    A node built from a character and a frequency keeps both and has no
    children; it is a full, weighted tree of height 0 whose only leaf is
    itself.
  */
  lemma LeafKeeps(character: Char, frequency: int)
    ensures IsLeaf(Leaf(character, frequency))
    ensures Leaf(character, frequency).character == character && Leaf(character, frequency).frequency == frequency
    ensures Shaped(Leaf(character, frequency)) && Weighted(Leaf(character, frequency))
    ensures LeafList(Leaf(character, frequency)) == [Leaf(character, frequency)]
    ensures InteriorCount(Leaf(character, frequency)) == 0 && Height(Leaf(character, frequency)) == 0
  {
  }

  /** `Node(int)`: a childless node that carries the interior marker. */
  function Marker(frequency: int): (t: Tree)
    ensures IsLeaf(t) && t.character == INTERIOR && t.frequency == frequency
  {
    Node(Nil, INTERIOR, frequency, Nil)
  }

  /**
    One merge of the tree builder: a node marked interior whose children are
    the two extracted nodes and whose frequency is the sum of theirs.
  */
  function Merge(x: Tree, y: Tree): (z: Tree)
    requires x.Node? && y.Node?
    ensures z.Node? && !IsLeaf(z) && z.left == x && z.right == y
    ensures z.character == INTERIOR && z.frequency == x.frequency + y.frequency
  {
    Node(x, INTERIOR, x.frequency + y.frequency, y)
  }

  /**
    A merge holds the leaves of both nodes, left first, and one interior
    node more than they do, and joins two full, weighted trees into one.
  */
  lemma MergeKeeps(x: Tree, y: Tree)
    requires x.Node? && y.Node?
    ensures LeafList(Merge(x, y)) == LeafList(x) + LeafList(y)
    ensures InteriorCount(Merge(x, y)) == InteriorCount(x) + InteriorCount(y) + 1
    ensures Shaped(x) && Shaped(y) ==> Shaped(Merge(x, y))
    ensures Weighted(x) && Weighted(y) ==> Weighted(Merge(x, y))
  {
  }

  /** `compareTo`: the sign of the frequency difference; characters and children play no part. */
  function CompareTo(self: Tree, node: Tree): (r: int)
    requires self.Node? && node.Node?
    ensures r == -1 <==> self.frequency < node.frequency
    ensures r == 0 <==> self.frequency == node.frequency
    ensures r == 1 <==> self.frequency > node.frequency
  {
    if self.frequency < node.frequency then -1
    else if self.frequency > node.frequency then 1
    else 0
  }

  /** Swapping the operands negates the comparison. */
  lemma CompareToAntisymmetric(a: Tree, b: Tree)
    requires a.Node? && b.Node?
    ensures CompareTo(a, b) == -CompareTo(b, a)
  {
  }

  /** "At most" under `compareTo` is transitive, so it is a total preorder on nodes. */
  lemma CompareToTransitive(a: Tree, b: Tree, c: Tree)
    requires a.Node? && b.Node? && c.Node?
    requires CompareTo(a, b) <= 0 && CompareTo(b, c) <= 0
    ensures CompareTo(a, c) <= 0
  {
  }

  /** The leaves of a tree, left to right. */
  function LeafList(t: Tree): seq<Tree> {
    match t
    case Nil => []
    case Node(l, _, _, r) => if IsLeaf(t) then [t] else LeafList(l) + LeafList(r)
  }

  /** The number of nodes that have at least one child. */
  function InteriorCount(t: Tree): nat {
    match t
    case Nil => 0
    case Node(l, _, _, r) => if IsLeaf(t) then 0 else 1 + InteriorCount(l) + InteriorCount(r)
  }

  /** The length of the longest root-to-node path. */
  function Height(t: Tree): nat {
    match t
    case Nil => 0
    case Node(l, _, _, r) =>
      if IsLeaf(t) then 0
      else 1 + (if Height(l) < Height(r) then Height(r) else Height(l))
  }

  /**
    The shape the builder produces: every node is a leaf or has two
    children, and every node with children carries the interior marker.
  */
  predicate Shaped(t: Tree) {
    t.Node? &&
    (IsLeaf(t) ||
     (t.left.Node? && t.right.Node? && t.character == INTERIOR && Shaped(t.left) && Shaped(t.right)))
  }

  /** Every node with children has the sum of their frequencies. */
  predicate Weighted(t: Tree) {
    match t
    case Nil => true
    case Node(l, _, f, r) =>
      IsLeaf(t) || (l.Node? && r.Node? && f == l.frequency + r.frequency && Weighted(l) && Weighted(r))
  }

  /** A shaped tree has one interior node fewer than it has leaves. */
  lemma {:induction false} ShapedCounts(t: Tree)
    requires Shaped(t)
    ensures InteriorCount(t) + 1 == |LeafList(t)|
  {
    if !IsLeaf(t) {
      ShapedCounts(t.left);
      ShapedCounts(t.right);
    }
  }

  /** In a weighted tree the root's frequency is the sum of its leaves' frequencies. */
  lemma {:induction false} WeightedSum(t: Tree)
    requires Shaped(t) && Weighted(t)
    ensures t.frequency == SumLeafFrequencies(LeafList(t))
  {
    if !IsLeaf(t) {
      WeightedSum(t.left);
      WeightedSum(t.right);
      SumLeafFrequenciesAppend(LeafList(t.left), LeafList(t.right));
    } else {
      assert LeafList(t) == [t];
    }
  }

  /** The sum of the frequencies of a list of nodes (Nil counts zero). */
  function SumLeafFrequencies(ts: seq<Tree>): int {
    if |ts| == 0 then 0
    else (if ts[0].Node? then ts[0].frequency else 0) + SumLeafFrequencies(ts[1..])
  }

  lemma {:induction false} SumLeafFrequenciesAppend(a: seq<Tree>, b: seq<Tree>)
    ensures SumLeafFrequencies(a + b) == SumLeafFrequencies(a) + SumLeafFrequencies(b)
    decreases |a|
  {
    if |a| > 0 {
      assert (a + b)[1..] == a[1..] + b;
      SumLeafFrequenciesAppend(a[1..], b);
    } else {
      assert a + b == b;
    }
  }
}
