/**
  Worked examples of the codec, proved about the model. The empty input encodes to a four-byte file
  that decodes to nothing; an input of one letter has a two-leaf tree
  whose file decodes back to the letter. Both show that the conditions of
  the round trip can be met.
*/
module Scenarios {
  import opened Types
  import opened Binary
  import opened Nodes
  import opened TreeBuilder
  import opened TreeWalk
  import opened Sorting
  import opened Canonical
  import opened Lookup
  import opened Frequency
  import opened CodeTable
  import opened Packer
  import opened HeaderReader
  import opened StreamDecoder
  import opened Pipeline

  /** The leaves of a one-entry map: the single leaf of that entry. */
  lemma OneLeaf(m: map<Char, int>, c: Char)
    requires c in m && |m| == 1
    ensures LeavesOf(m) == [Leaf(c, m[c])]
  {
    LeavesOfEntries(m);
    var ls := LeavesOf(m);
    assert Leaf(c, m[c]) in ls;
  }

  /** The leaves of a two-entry map, smaller character first. */
  lemma TwoLeaves(m: map<Char, int>, a: Char, b: Char)
    requires a in m && b in m && a < b && |m| == 2
    ensures LeavesOf(m) == [Leaf(a, m[a]), Leaf(b, m[b])]
  {
    LeavesOfEntries(m);
    var ls := LeavesOf(m);
    assert |ls| == 2;
    assert Leaf(a, m[a]) in ls && Leaf(b, m[b]) in ls;
    AscendingPair(ls, Leaf(a, m[a]), Leaf(b, m[b]));
  }

  /** Two nodes of an ascending pair, the smaller character first, are the pair in that order. */
  lemma AscendingPair(ls: seq<Tree>, x: Tree, y: Tree)
    requires |ls| == 2 && x in ls && y in ls && x.Node? && y.Node? && x.character < y.character
    requires ls[0].Node? && ls[1].Node? && ls[0].character < ls[1].character
    ensures ls == [x, y]
  {
  }

  /** The empty input counts only the sentinel. */
  lemma EmptyInputMap()
    ensures ReadInputMap([]) == map[SENTINEL := 1]
  {
  }

  /**
    The sentinel's leaf is a Huffman tree of the empty input's counts,
    reached with no rounds of merging, and it meets the conditions of the
    round trip.
  */
  lemma EmptyInputTree()
    ensures IsHuffmanTreeOf(Leaf(SENTINEL, 1), ReadInputMap([]))
    ensures RoundTripReady([], Leaf(SENTINEL, 1))
  {
    var m := ReadInputMap([]);
    OneLeaf(m, SENTINEL);
    assert LeafList(Leaf(SENTINEL, 1)) == [Leaf(SENTINEL, 1)];
    var trace: seq<seq<Tree>> := [[Leaf(SENTINEL, 1)]];
    assert LeastMerges(trace, []);
    assert trace[0] == LeavesOf(m) && trace[|trace| - 1] == FinalQueue(Leaf(SENTINEL, 1));
  }

  /**
    The empty input: a header of one record, the sentinel with length 0,
    and one payload byte holding its code "0" padded to a byte. The file
    decodes to nothing.
  */
  lemma EmptyInputFile()
    ensures EncodeWith([], Leaf(SENTINEL, 1)) == Success([1, 0, 0, 0])
    ensures DecodeFile([1, 0, 0, 0]) == []
  {
    EmptyInputTree();
    RoundTrip([], Leaf(SENTINEL, 1));
    EmptyTable();
    EmptyEncoding();
  }

  /** The sentinel's lone leaf gets length 0 and the code "0". */
  lemma EmptyTable()
    ensures CodeList(Leaf(SENTINEL, 1)) == [Huffman(SENTINEL, [false], 0)]
  {
    var root := Leaf(SENTINEL, 1);
    assert InOrder(root, []) == [Huffman(SENTINEL, [], 0)];
    assert SortedWalk(root) == [Huffman(SENTINEL, [], 0)];
    SingleRecord(Huffman(SENTINEL, [], 0));
  }

  /** The table of the sentinel alone writes the count, one pair, and the padded code. */
  lemma EmptyEncoding()
    ensures EncodedFile([Huffman(SENTINEL, [false], 0)], []) == Success([1, 0, 0, 0])
  {
    var list := [Huffman(SENTINEL, [false], 0)];
    var enc := LookupMapEncodings(list);
    assert list[..0] == [];
    assert HeaderPairs([]) == Success([]);
    assert Low8(0) == 0;
    assert HeaderPairs(list) == Success([] + [Low8(0), Low8(0)]);
    assert enc[SENTINEL] == [false];
    assert CodeStream(enc, []) == Success([]);
    ZeroByte();
    assert Low8(|list|) == 1;
    assert [] + [Low8(0), Low8(0)] == [0, 0];
    assert SENTINEL in enc;
    assert EncodedFile(list, []) == Success([Low8(|list|)] + [0, 0] + Pack(Frame([] + [false])));
    assert [Low8(|list|)] + [0, 0] + [0] == [1, 0, 0, 0];
  }

  /** The sentinel's one-bit code, padded, is the byte 0. */
  lemma ZeroByte()
    ensures Pack(Frame([] + [false])) == [0]
  {
    var bits := Frame([] + [false]);
    assert bits == [false] + Zeros(7);
    assert Value(bits) == 0 by {
      ZerosValue(bits);
    }
    PackByte(bits);
  }

  /** The one-letter input "A": the sentinel and 'A', counted once each. */
  lemma LetterInputMap()
    ensures ReadInputMap([65]) == map[SENTINEL := 1, 65 := 1]
  {
    var m := ReadInputMap([65]);
    assert m.Keys == {SENTINEL, 65};
  }

  /**
    A tree the builder may return for "A": the two leaves joined, the
    sentinel on the left. The counts tie, so the mirror image is the other.
  */
  function LetterTree(): Tree {
    Merge(Leaf(SENTINEL, 1), Leaf(65, 1))
  }

  /** "A" meets the conditions of the round trip with that tree. */
  lemma LetterReady()
    ensures RoundTripReady([65], LetterTree())
  {
    LetterInputMap();
    LetterTreeBuilt(map[SENTINEL := 1, 65 := 1]);
    assert Height(LetterTree()) == 1;
  }

  /** The joined leaves are a Huffman tree of the counts of "A", reached by one least-first merge. */
  lemma LetterTreeBuilt(m: map<Char, int>)
    requires m == map[SENTINEL := 1, 65 := 1]
    ensures IsHuffmanTreeOf(LetterTree(), m)
  {
    LetterFull(m);
    LetterMerge(m);
    OneRound(m, LetterTree(), Leaf(SENTINEL, 1), Leaf(65, 1));
  }

  /** A full tree reached from the leaves by one least-first round is a Huffman tree. */
  lemma OneRound(input: map<Char, int>, root: Tree, x: Tree, y: Tree)
    requires root.Node? && IsFullTreeOf(root, input)
    requires MergesLeast(LeavesOf(input), [root], x, y)
    ensures IsHuffmanTreeOf(root, input)
  {
    var trace, pairs := [LeavesOf(input), [root]], [(x, y)];
    assert trace[0] == LeavesOf(input) && trace[1] == [root] && pairs[0] == (x, y);
    assert LeastMerges(trace, pairs);
    assert trace[|trace| - 1] == FinalQueue(root);
    TraceWitness(root, input, trace, pairs);
  }

  lemma TraceWitness(root: Tree, input: map<Char, int>, trace: seq<seq<Tree>>, pairs: seq<(Tree, Tree)>)
    requires IsFullTreeOf(root, input)
    requires |trace| >= 1 && trace[0] == LeavesOf(input) && trace[|trace| - 1] == FinalQueue(root)
    requires LeastMerges(trace, pairs)
    ensures IsHuffmanTreeOf(root, input)
  {
  }

  /** The joined leaves are a full tree of the counts of "A". */
  lemma LetterFull(m: map<Char, int>)
    requires m == map[SENTINEL := 1, 65 := 1]
    ensures IsFullTreeOf(LetterTree(), m)
  {
    LetterMapSize(m);
    TwoLeaves(m, SENTINEL, 65);
    LetterLeaves();
  }

  /** Joining the two leaves of "A" is a round that merges two least nodes. */
  lemma LetterMerge(m: map<Char, int>)
    requires m == map[SENTINEL := 1, 65 := 1]
    ensures MergesLeast(LeavesOf(m), [LetterTree()], Leaf(SENTINEL, 1), Leaf(65, 1))
  {
    LetterMapSize(m);
    TwoLeaves(m, SENTINEL, 65);
    assert [LetterTree()][..0] == [];
  }

  lemma LetterMapSize(m: map<Char, int>)
    requires m == map[SENTINEL := 1, 65 := 1]
    ensures |m| == 2 && SENTINEL in m && 65 in m && m[SENTINEL] == 1 && m[65] == 1
  {
    assert m.Keys == {SENTINEL, 65};
  }

  /** The letter tree is built, and its leaves are the sentinel's and the letter's. */
  lemma LetterLeaves()
    ensures Shaped(LetterTree()) && Weighted(LetterTree())
    ensures LeafList(LetterTree()) == [Leaf(SENTINEL, 1), Leaf(65, 1)]
  {
  }

  /** "A" survives encoding and decoding. */
  lemma LetterRoundTrip()
    ensures EncodeWith([65], LetterTree()).Success?
    ensures DecodeFile(EncodeWith([65], LetterTree()).value) == [65]
  {
    LetterReady();
    RoundTripWhole([65], LetterTree());
  }
}
