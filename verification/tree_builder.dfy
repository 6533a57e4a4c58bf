/**
  `huffmanTree`: the textbook construction. Every entry of the frequency map
  becomes a leaf; n - 1 times the two nodes of least frequency are taken out
  and joined under a new node marked interior whose frequency is their sum;
  the one node left is the root. Ties between equal frequencies are broken
  in an unspecified way, so the extraction may pick any least node.
*/
module TreeBuilder {
  import opened Types
  import opened Nodes

  /** The leaves built from the frequency map, one per entry, in ascending character order. */
  function LeavesOf(input: map<Char, int>): (ls: seq<Tree>)
    ensures forall t :: t in ls ==> IsLeaf(t)
  {
    var ks := KeysAscending(input);
    seq(|ks|, i requires 0 <= i < |ks| => Leaf(ks[i], input[ks[i]]))
  }

  /**
    There is one leaf per map entry, carrying the entry's character and
    frequency, and no character twice.
  */
  lemma LeavesOfEntries(input: map<Char, int>)
    ensures |LeavesOf(input)| == |input|
    ensures forall i :: 0 <= i < |LeavesOf(input)| ==>
      var t := LeavesOf(input)[i]; t.character in input && t == Leaf(t.character, input[t.character])
    ensures forall c :: c in input ==> Leaf(c, input[c]) in LeavesOf(input)
    ensures forall i, j :: 0 <= i < j < |LeavesOf(input)| ==>
      LeavesOf(input)[i].character < LeavesOf(input)[j].character
  {
    LeavesOfCount(input);
    LeavesOfKeys(input, KeysAscending(input), LeavesOf(input));
  }

  /** One leaf per map entry. */
  lemma LeavesOfCount(input: map<Char, int>)
    ensures |LeavesOf(input)| == |input|
  {
    KeysAscendingCount(input);
  }

  /** Leaves built from the ascending keys, one per key. */
  lemma LeavesOfKeys(input: map<Char, int>, ks: seq<Char>, ls: seq<Tree>)
    requires |ls| == |ks|
    requires forall i :: 0 <= i < |ks| ==> ks[i] in input && ls[i] == Leaf(ks[i], input[ks[i]])
    requires forall i, j :: 0 <= i < j < |ks| ==> ks[i] < ks[j]
    requires forall c :: c in input ==> c in ks
    ensures forall i :: 0 <= i < |ls| ==>
      ls[i].Node? && ls[i].character in input && ls[i] == Leaf(ls[i].character, input[ls[i].character])
    ensures forall c :: c in input ==> Leaf(c, input[c]) in ls
    ensures forall i, j :: 0 <= i < j < |ls| ==> ls[i].Node? && ls[j].Node? && ls[i].character < ls[j].character
  {
    forall c | c in input ensures Leaf(c, input[c]) in ls {
      var i :| 0 <= i < |ks| && ks[i] == c;
      assert ls[i] == Leaf(c, input[c]);
    }
    forall i, j | 0 <= i < j < |ls| ensures ls[i].character < ls[j].character {
      assert ls[i].character == ks[i] && ls[j].character == ks[j];
    }
  }

  /** The leaves' frequencies add up to the sum of the map's values. */
  lemma LeavesOfTotal(input: map<Char, int>)
    ensures SumLeafFrequencies(LeavesOf(input)) == MapTotal(input)
  {
    var ks := KeysAscending(input);
    LeafSumOver(input, ks);
    SumOverKeys(input, 0);
  }

  lemma {:induction false} LeafSumOver(input: map<Char, int>, ks: seq<Char>)
    requires forall i :: 0 <= i < |ks| ==> ks[i] in input
    ensures SumLeafFrequencies(seq(|ks|, i requires 0 <= i < |ks| => Leaf(ks[i], input[ks[i]])))
         == SumOver(input, ks)
  {
    var ls := seq(|ks|, i requires 0 <= i < |ks| => Leaf(ks[i], input[ks[i]]));
    if |ks| > 0 {
      var tail := ks[1..];
      LeafSumOver(input, tail);
      assert ls[1..] == seq(|tail|, i requires 0 <= i < |tail| => Leaf(tail[i], input[tail[i]]));
    }
  }

  /** All leaves of all trees of a queue, queue order first. */
  function ForestLeaves(q: seq<Tree>): seq<Tree> {
    if |q| == 0 then [] else LeafList(q[0]) + ForestLeaves(q[1..])
  }

  /** The interior nodes of all trees of a queue. */
  function ForestInterior(q: seq<Tree>): nat {
    if |q| == 0 then 0 else InteriorCount(q[0]) + ForestInterior(q[1..])
  }

  predicate AllNodes(q: seq<Tree>) {
    forall t :: t in q ==> t.Node?
  }

  predicate AllBuilt(q: seq<Tree>) {
    forall t :: t in q ==> Shaped(t) && Weighted(t)
  }

  lemma {:induction false} ForestLeavesAppend(a: seq<Tree>, b: seq<Tree>)
    ensures ForestLeaves(a + b) == ForestLeaves(a) + ForestLeaves(b)
    decreases |a|
  {
    if |a| == 0 {
      assert a + b == b;
    } else {
      assert (a + b)[1..] == a[1..] + b;
      ForestLeavesAppend(a[1..], b);
    }
  }

  lemma {:induction false} ForestInteriorAppend(a: seq<Tree>, b: seq<Tree>)
    ensures ForestInterior(a + b) == ForestInterior(a) + ForestInterior(b)
    decreases |a|
  {
    if |a| == 0 {
      assert a + b == b;
    } else {
      assert (a + b)[1..] == a[1..] + b;
      ForestInteriorAppend(a[1..], b);
    }
  }

  lemma ForestSingle(t: Tree)
    ensures ForestLeaves([t]) == LeafList(t)
    ensures ForestInterior([t]) == InteriorCount(t)
    ensures SumLeafFrequencies([t]) == if t.Node? then t.frequency else 0
  {
    assert [t][1..] == [];
  }

  /** Taking element k out of a queue takes its leaves out of the queue's leaves. */
  lemma ForestRemoveLeaves(q: seq<Tree>, k: nat)
    requires k < |q|
    ensures multiset(ForestLeaves(q)) == multiset(ForestLeaves(q[..k] + q[k + 1..])) + multiset(LeafList(q[k]))
  {
    SplitAround(q, k);
    RemoveLeaves(q[..k], q[k], q[k + 1..]);
  }

  lemma RemoveLeaves(a: seq<Tree>, t: Tree, b: seq<Tree>)
    ensures multiset(ForestLeaves(a + ([t] + b))) == multiset(ForestLeaves(a + b)) + multiset(LeafList(t))
  {
    ForestLeavesAppend(a, [t] + b);
    ForestLeavesAppend([t], b);
    ForestLeavesAppend(a, b);
    ForestSingle(t);
    var la, lt, lb := ForestLeaves(a), LeafList(t), ForestLeaves(b);
    assert multiset(la + (lt + lb)) == multiset(la) + multiset(lt) + multiset(lb);
  }

  /** Taking element k out of a queue takes its interior nodes out of the count. */
  lemma ForestRemoveCounts(q: seq<Tree>, k: nat)
    requires k < |q|
    ensures ForestInterior(q) == ForestInterior(q[..k] + q[k + 1..]) + InteriorCount(q[k])
  {
    SplitAround(q, k);
    RemoveInterior(q[..k], q[k], q[k + 1..]);
  }

  lemma RemoveInterior(a: seq<Tree>, t: Tree, b: seq<Tree>)
    ensures ForestInterior(a + ([t] + b)) == ForestInterior(a + b) + InteriorCount(t)
  {
    ForestInteriorAppend(a, [t] + b);
    ForestInteriorAppend([t], b);
    ForestInteriorAppend(a, b);
    ForestSingle(t);
  }

  /** Taking element k out of a queue takes its frequency out of the total. */
  lemma ForestRemoveFrequency(q: seq<Tree>, k: nat)
    requires k < |q|
    ensures SumLeafFrequencies(q) == SumLeafFrequencies(q[..k] + q[k + 1..])
                                     + (if q[k].Node? then q[k].frequency else 0)
  {
    SplitAround(q, k);
    RemoveSum(q[..k], q[k], q[k + 1..]);
  }

  /** A sequence is its prefix, element k and suffix put back together. */
  lemma SplitAround(q: seq<Tree>, k: nat)
    requires k < |q|
    ensures q == q[..k] + ([q[k]] + q[k + 1..])
  {
    assert q[..k + 1] == q[..k] + [q[k]];
    assert q == q[..k + 1] + q[k + 1..];
  }

  lemma RemoveSum(a: seq<Tree>, t: Tree, b: seq<Tree>)
    ensures SumLeafFrequencies(a + ([t] + b)) == SumLeafFrequencies(a + b) + (if t.Node? then t.frequency else 0)
  {
    SumLeafFrequenciesAppend(a, [t] + b);
    SumLeafFrequenciesAppend([t], b);
    SumLeafFrequenciesAppend(a, b);
    ForestSingle(t);
  }

  /** Removing element k keeps the other elements. */
  lemma RemoveAt(q: seq<Tree>, k: nat)
    requires k < |q|
    ensures |q[..k] + q[k + 1..]| == |q| - 1
    ensures forall t :: t in q[..k] + q[k + 1..] ==> t in q
  {
    forall t | t in q[..k] + q[k + 1..] ensures t in q {
      if t in q[..k] {
        var i :| 0 <= i < k && q[..k][i] == t;
        assert q[i] == t;
      } else {
        var i :| 0 <= i < |q| - k - 1 && q[k + 1..][i] == t;
        assert q[k + 1 + i] == t;
      }
    }
  }

  /** A queue of leaves holds exactly those leaves and no interior nodes. */
  lemma {:induction false} ForestOfLeaves(q: seq<Tree>)
    requires forall t :: t in q ==> IsLeaf(t)
    ensures ForestLeaves(q) == q
    ensures ForestInterior(q) == 0
  {
    if |q| > 0 {
      assert q[0] in q;
      assert forall t :: t in q[1..] ==> t in q;
      ForestOfLeaves(q[1..]);
      assert q == [q[0]] + q[1..];
    }
  }

  /** A least node of a non-empty queue of nodes, found by a scan. */
  function MinIndex(q: seq<Tree>): (k: nat)
    requires |q| > 0 && AllNodes(q)
    ensures k < |q|
    ensures forall j :: 0 <= j < |q| ==> CompareTo(q[k], q[j]) <= 0
  {
    assert q[0] in q;
    if |q| == 1 then 0
    else
      var k := MinIndex(q[1..]);
      if q[0].frequency <= q[1..][k].frequency then 0 else k + 1
  }

  /**
    `PriorityQueue.poll`: the position of some node of least frequency.
    Which one among equal frequencies is left open.
  */
  method Poll(q: seq<Tree>) returns (k: nat)
    requires |q| > 0 && AllNodes(q)
    ensures k < |q|
    ensures forall j :: 0 <= j < |q| ==> CompareTo(q[k], q[j]) <= 0
  {
    var least := MinIndex(q);
    assert least < |q| && forall j :: 0 <= j < |q| ==> CompareTo(q[least], q[j]) <= 0;
    k :| k < |q| && forall j :: 0 <= j < |q| ==> CompareTo(q[k], q[j]) <= 0;
  }

  /**
    A full tree of a frequency map: null for an empty map, otherwise full,
    weighted, and with exactly the map's leaves. Any order of merging
    yields such a tree.
  */
  ghost predicate IsFullTreeOf(root: Tree, input: map<Char, int>) {
    && (root == Nil <==> |input| == 0)
    && (root != Nil ==> Shaped(root) && Weighted(root))
    && multiset(LeafList(root)) == multiset(LeavesOf(input))
  }

  /**
    One round of the builder on `queue` gives `next`: x and y leave the
    queue, x of least frequency and y of least frequency among the rest,
    and their join is put back last.
  */
  predicate MergesLeast(queue: seq<Tree>, next: seq<Tree>, x: Tree, y: Tree) {
    && |next| >= 1 && x.Node? && y.Node?
    && next[|next| - 1] == Merge(x, y)
    && multiset(queue) == multiset(next[..|next| - 1]) + multiset{x, y}
    && x.frequency <= y.frequency
    && forall t :: t in next[..|next| - 1] ==> t.Node? && y.frequency <= t.frequency
  }

  /** Round i of the trace turns queue i into queue i + 1 by merging pair i least-first. */
  ghost predicate LeastMerges(trace: seq<seq<Tree>>, pairs: seq<(Tree, Tree)>) {
    && |pairs| == |trace| - 1
    && forall i :: 0 <= i < |pairs| ==> MergesLeast(trace[i], trace[i + 1], pairs[i].0, pairs[i].1)
  }

  /** The queue the builder ends with: the root alone, or nothing for an empty map. */
  function FinalQueue(root: Tree): seq<Tree> {
    if root == Nil then [] else [root]
  }

  /**
    A Huffman tree of a frequency map: a full tree of the map reached from
    the map's leaves by rounds that each merge two nodes of least
    frequency.
  */
  ghost predicate IsHuffmanTreeOf(root: Tree, input: map<Char, int>) {
    && IsFullTreeOf(root, input)
    && exists trace, pairs :: |trace| >= 1 && trace[0] == LeavesOf(input) &&
         trace[|trace| - 1] == FinalQueue(root) && LeastMerges(trace, pairs)
  }

  /** A trace of least-first rounds extended by one more round is still one. */
  lemma ExtendTrace(trace: seq<seq<Tree>>, pairs: seq<(Tree, Tree)>, next: seq<Tree>, x: Tree, y: Tree)
    requires |trace| >= 1 && LeastMerges(trace, pairs)
    requires MergesLeast(trace[|trace| - 1], next, x, y)
    ensures LeastMerges(trace + [next], pairs + [(x, y)])
  {
    var t, p := trace + [next], pairs + [(x, y)];
    forall i | 0 <= i < |p| ensures MergesLeast(t[i], t[i + 1], p[i].0, p[i].1) {
      if i < |pairs| {
        assert t[i] == trace[i] && t[i + 1] == trace[i + 1] && p[i] == pairs[i];
      }
    }
  }

  /**
    One round of the builder's loop: poll two least nodes x and y, join
    them under a new interior node and put it back. The queue shrinks by
    one, keeps its leaves and its total frequency, and gains one interior
    node.
  */
  method MergeLeast(queue: seq<Tree>) returns (next: seq<Tree>, x: Tree, y: Tree)
    requires |queue| >= 2 && AllNodes(queue) && AllBuilt(queue)
    ensures |next| == |queue| - 1
    ensures x.Node? && y.Node? && x.frequency <= y.frequency
    ensures next[|next| - 1] == Merge(x, y)
    ensures multiset(queue) == multiset(next[..|next| - 1]) + multiset{x, y}
    ensures forall t :: t in next[..|next| - 1] ==> t.Node? && y.frequency <= t.frequency
    ensures AllNodes(next) && AllBuilt(next)
    ensures multiset(ForestLeaves(next)) == multiset(ForestLeaves(queue))
    ensures SumLeafFrequencies(next) == SumLeafFrequencies(queue)
    ensures ForestInterior(next) == ForestInterior(queue) + 1
  {
    var a := Poll(queue);
    x := queue[a];
    var rest := Without(queue, a);
    TakeOut(queue, a);

    var b := Poll(rest);
    y := rest[b];
    var rest' := Without(rest, b);
    TakeOut(rest, b);
    PolledTwice(queue, a, b);

    var z := Merge(x, y);
    PutBack(rest', x, y);
    next := rest' + [z];
    assert next[..|next| - 1] == rest';
    Regroup(ForestLeaves(queue), ForestLeaves(rest), ForestLeaves(rest'), LeafList(x), LeafList(y));
  }

  /**
    Polling element a, then element b of what is left: the first is no
    more frequent than the second, the second is no more frequent than
    anything left, and the two with what is left make up the queue.
  */
  lemma PolledTwice(q: seq<Tree>, a: nat, b: nat)
    requires a < |q| && AllNodes(q)
    requires forall j :: 0 <= j < |q| ==> CompareTo(q[a], q[j]) <= 0
    requires b < |Without(q, a)| && AllNodes(Without(q, a))
    requires forall j :: 0 <= j < |Without(q, a)| ==> CompareTo(Without(q, a)[b], Without(q, a)[j]) <= 0
    ensures q[a].frequency <= Without(q, a)[b].frequency
    ensures multiset(q) == multiset(Without(Without(q, a), b)) + multiset{q[a], Without(q, a)[b]}
    ensures forall t :: t in Without(Without(q, a), b) ==> t.Node? && Without(q, a)[b].frequency <= t.frequency
  {
    var rest := Without(q, a);
    var y := rest[b];
    WithoutMultiset(q, a);
    WithoutMultiset(rest, b);
    assert y in q;
    var j :| 0 <= j < |q| && q[j] == y;
    assert CompareTo(q[a], q[j]) <= 0;
    forall t | t in Without(rest, b) ensures t.Node? && y.frequency <= t.frequency {
      var k :| 0 <= k < |rest| && rest[k] == t;
      assert CompareTo(y, rest[k]) <= 0;
    }
  }

  /** A queue is its element k together with the queue without it. */
  lemma WithoutMultiset(q: seq<Tree>, k: nat)
    requires k < |q|
    ensures multiset(q) == multiset(Without(q, k)) + multiset{q[k]}
    ensures forall t :: t in Without(q, k) ==> t in q
  {
    assert q == q[..k] + [q[k]] + q[k + 1..];
    RemoveAt(q, k);
  }

  /** Two elements taken out and put back together leave the same collection. */
  lemma Regroup<T>(q: seq<T>, r: seq<T>, r': seq<T>, x: seq<T>, y: seq<T>)
    requires multiset(q) == multiset(r) + multiset(x)
    requires multiset(r) == multiset(r') + multiset(y)
    ensures multiset(r' + (x + y)) == multiset(q)
  {
  }

  /** A queue with its element k taken out. */
  function Without(q: seq<Tree>, k: nat): (r: seq<Tree>)
    requires k < |q|
    ensures |r| == |q| - 1
  {
    q[..k] + q[k + 1..]
  }

  /** Polling element k takes its leaves, interior nodes and frequency out of the queue's totals. */
  lemma TakeOut(q: seq<Tree>, k: nat)
    requires k < |q| && AllNodes(q) && AllBuilt(q)
    ensures AllNodes(Without(q, k)) && AllBuilt(Without(q, k))
    ensures q[k].Node? && Shaped(q[k]) && Weighted(q[k])
    ensures multiset(ForestLeaves(q)) == multiset(ForestLeaves(Without(q, k))) + multiset(LeafList(q[k]))
    ensures ForestInterior(q) == ForestInterior(Without(q, k)) + InteriorCount(q[k])
    ensures SumLeafFrequencies(q) == SumLeafFrequencies(Without(q, k)) + q[k].frequency
  {
    assert q[k] in q;
    ForestRemoveLeaves(q, k);
    ForestRemoveCounts(q, k);
    ForestRemoveFrequency(q, k);
    RemoveAt(q, k);
  }

  /** Putting the merged node back adds both children's leaves, their frequencies and one interior node. */
  lemma PutBack(rest: seq<Tree>, x: Tree, y: Tree)
    requires x.Node? && y.Node? && Shaped(x) && Weighted(x) && Shaped(y) && Weighted(y)
    requires AllNodes(rest) && AllBuilt(rest)
    ensures AllNodes(rest + [Merge(x, y)]) && AllBuilt(rest + [Merge(x, y)])
    ensures ForestLeaves(rest + [Merge(x, y)]) == ForestLeaves(rest) + (LeafList(x) + LeafList(y))
    ensures ForestInterior(rest + [Merge(x, y)]) == ForestInterior(rest) + InteriorCount(x) + InteriorCount(y) + 1
    ensures SumLeafFrequencies(rest + [Merge(x, y)]) == SumLeafFrequencies(rest) + x.frequency + y.frequency
  {
    var z := Merge(x, y);
    assert LeafList(z) == LeafList(x) + LeafList(y);
    ForestLeavesAppend(rest, [z]);
    ForestInteriorAppend(rest, [z]);
    SumLeafFrequenciesAppend(rest, [z]);
    ForestSingle(z);
  }

  /**
    The state of the builder after i - 1 rounds: the queue has lost i - 1
    nodes, still holds the map's leaves and total frequency, has gained
    i - 1 interior nodes, and was reached from the leaves by least-first
    rounds.
  */
  ghost predicate Building(input: map<Char, int>, queue: seq<Tree>, i: nat, trace: seq<seq<Tree>>, pairs: seq<(Tree, Tree)>) {
    && |LeavesOf(input)| == |input|
    && 1 <= i && (i <= |input| || |input| == 0)
    && |queue| == |input| - (i - 1)
    && AllNodes(queue) && AllBuilt(queue)
    && multiset(ForestLeaves(queue)) == multiset(LeavesOf(input))
    && SumLeafFrequencies(queue) == SumLeafFrequencies(LeavesOf(input))
    && ForestInterior(queue) == i - 1
    && |trace| >= 1 && trace[0] == LeavesOf(input) && trace[|trace| - 1] == queue
    && LeastMerges(trace, pairs)
  }

  /** Before the first round the queue holds the map's leaves. */
  lemma StartBuilding(input: map<Char, int>)
    ensures Building(input, LeavesOf(input), 1, [LeavesOf(input)], [])
  {
    LeavesOfCount(input);
    ForestOfLeaves(LeavesOf(input));
  }

  /**
    One round of the loop with its record: the queue shrinks by one, keeps
    its leaves and total frequency and gains an interior node, and the
    record of least-first rounds grows by this one.
  */
  method Round(input: map<Char, int>, queue: seq<Tree>, i: nat, ghost trace: seq<seq<Tree>>, ghost pairs: seq<(Tree, Tree)>)
    returns (next: seq<Tree>, ghost trace': seq<seq<Tree>>, ghost pairs': seq<(Tree, Tree)>)
    requires Building(input, queue, i, trace, pairs) && i < |input|
    ensures |next| == |queue| - 1
    ensures Building(input, next, i + 1, trace', pairs')
  {
    var x, y;
    next, x, y := MergeLeast(queue);
    ExtendTrace(trace, pairs, next, x, y);
    trace', pairs' := trace + [next], pairs + [(x, y)];
  }

  /**
    The loop of `huffmanTree`: starting from the map's leaves, n - 1 rounds
    of least-first merges, after which at most one node is left.
  */
  method Rounds(input: map<Char, int>) returns (queue: seq<Tree>, i: nat, ghost trace: seq<seq<Tree>>, ghost pairs: seq<(Tree, Tree)>)
    ensures |queue| == if |input| == 0 then 0 else 1
    ensures Building(input, queue, i, trace, pairs) && i >= |input|
  {
    var list := LeavesOf(input);
    LeavesOfCount(input);
    queue := list;
    trace, pairs := [list], [];
    StartBuilding(input);
    i := 1;
    while i < |list|
      invariant Building(input, queue, i, trace, pairs)
      decreases |list| - i
    {
      queue, trace, pairs := Round(input, queue, i, trace, pairs);
      i := i + 1;
    }
  }

  /**
    `huffmanTree`: exactly n - 1 merges of two least nodes, each round
    recorded in a trace of least-first merges. The result is
    null for an empty map; otherwise a full tree whose leaves are exactly
    the map's entries, whose inner nodes are marked and weighted by the
    sum of their children, and whose root carries the total frequency.
  */
  method HuffmanTree(input: map<Char, int>) returns (root: Tree)
    ensures root == Nil <==> |input| == 0
    ensures root != Nil ==> Shaped(root) && Weighted(root)
    ensures multiset(LeafList(root)) == multiset(LeavesOf(input))
    ensures root != Nil ==> root.frequency == MapTotal(input)
    ensures root != Nil ==> InteriorCount(root) == |input| - 1
    ensures IsHuffmanTreeOf(root, input)
  {
    var queue, i, trace, pairs := Rounds(input);
    if |queue| == 0 {
      root := Nil;
    } else {
      root := PollSingle(queue);
    }
    Finished(input, queue, i, root, trace, pairs);
  }

  /** The final `poll` of a queue holding one node returns that node. */
  method PollSingle(queue: seq<Tree>) returns (root: Tree)
    requires |queue| == 1 && AllNodes(queue)
    ensures root == queue[0]
  {
    var k := Poll(queue);
    root := queue[k];
  }

  /** When the loop stops, the queue holds at most the root, and the root is the tree of the map. */
  lemma Finished(input: map<Char, int>, queue: seq<Tree>, i: nat, root: Tree, trace: seq<seq<Tree>>, pairs: seq<(Tree, Tree)>)
    requires Building(input, queue, i, trace, pairs) && i >= |input|
    requires root == if |queue| == 0 then Nil else queue[|queue| - 1]
    ensures root == Nil <==> |input| == 0
    ensures root != Nil ==> Shaped(root) && Weighted(root)
    ensures multiset(LeafList(root)) == multiset(LeavesOf(input))
    ensures root != Nil ==> root.frequency == MapTotal(input)
    ensures root != Nil ==> InteriorCount(root) == |input| - 1
    ensures IsHuffmanTreeOf(root, input)
  {
    if |queue| == 0 {
      assert LeavesOf(input) == [] && LeafList(root) == [];
    } else {
      assert queue == [root];
      assert root in queue;
      LastTree(root, input);
    }
    assert trace[|trace| - 1] == FinalQueue(root);
  }

  /** The one tree left when the builder stops is the whole tree of the map. */
  lemma LastTree(root: Tree, input: map<Char, int>)
    requires multiset(ForestLeaves([root])) == multiset(LeavesOf(input))
    requires SumLeafFrequencies([root]) == SumLeafFrequencies(LeavesOf(input))
    requires ForestInterior([root]) == |input| - 1
    ensures multiset(LeafList(root)) == multiset(LeavesOf(input))
    ensures root.Node? ==> root.frequency == MapTotal(input)
    ensures InteriorCount(root) == |input| - 1
  {
    ForestSingle(root);
    LeavesOfTotal(input);
  }
}
