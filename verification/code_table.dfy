/**
  The encoder's code table, from tree to canonical list: the in-order walk
  of the built tree, sorted, then canonicalized (the middle of
  `Encode.encode`). For a tree built from a frequency map without the
  interior marker among its characters and no deeper than 31, the table
  has one record per map entry and is a prefix-free code of non-empty
  codes.
*/
module CodeTable {
  import opened Types
  import opened Binary
  import opened Codes
  import opened Nodes
  import opened TreeBuilder
  import opened TreeWalk
  import opened Sorting
  import opened Canonical

  /** The records of the walk, sorted: the list whose lengths go into the header. */
  function SortedWalk(root: Tree): (r: seq<Huffman>)
    ensures Sorted(r) && multiset(r) == multiset(InOrder(root, []))
  {
    SortHuffmanList(InOrder(root, []))
  }

  /** The encoder's final list: the sorted walk with canonical codes. */
  function CodeList(root: Tree): (r: seq<Huffman>)
    ensures |r| == |SortedWalk(root)|
    ensures forall i :: 0 <= i < |r| ==>
      r[i].character == SortedWalk(root)[i].character && r[i].length == SortedWalk(root)[i].length
  {
    Canonicalize(SortedWalk(root))
  }

  /** What the decoder needs of a table: distinct characters, and non-empty prefix-free codes. */
  predicate Decodable(list: seq<Huffman>) {
    DistinctChars(list) && PrefixFree(list) && LengthsFit(list) &&
    forall i :: 0 <= i < |list| ==> |list[i].binary| >= 1
  }

  /** The conditions under which the code table is sound. */
  ghost predicate GoodTree(root: Tree, freq: map<Char, int>) {
    IsFullTreeOf(root, freq) && |freq| > 0 && INTERIOR !in freq && Height(root) <= MAX_LENGTH
  }

  /** A list with one record per map entry and no character twice. */
  predicate TableOf(list: seq<Huffman>, freq: map<Char, int>) {
    |list| == |freq| && DistinctChars(list) &&
    (forall i :: 0 <= i < |list| ==> list[i].character in freq) &&
    (forall c :: c in freq ==> exists i :: 0 <= i < |list| && list[i].character == c)
  }

  /**
    Lengths that fit and satisfy the Kraft equality: a single record of
    length 0, or lengths that are all positive.
  */
  predicate LengthsOK(list: seq<Huffman>) {
    LengthsFit(list) && KraftUnits(list) == Pow2(MAX_LENGTH) &&
    ((|list| == 1 && list[0].length == 0) || PositiveLengths(list))
  }

  /** Every leaf of the built tree is the leaf of one map entry, and every entry has one. */
  lemma LeavesAreEntries(leaves: seq<Tree>, freq: map<Char, int>)
    requires multiset(leaves) == multiset(LeavesOf(freq))
    ensures forall i :: 0 <= i < |leaves| ==>
      leaves[i].Node? && leaves[i].character in freq && leaves[i] == Leaf(leaves[i].character, freq[leaves[i].character])
    ensures forall c :: c in freq ==> exists i :: 0 <= i < |leaves| && leaves[i].character == c
    ensures |leaves| == |freq| && NoDuplicates(leaves)
  {
    var ls := LeavesOf(freq);
    LeavesOfEntries(freq);
    forall i | 0 <= i < |leaves|
      ensures leaves[i].Node? && leaves[i].character in freq
      ensures leaves[i] == Leaf(leaves[i].character, freq[leaves[i].character])
    {
      assert leaves[i] in multiset(ls);
      var k :| 0 <= k < |ls| && ls[k] == leaves[i];
    }
    forall c | c in freq ensures exists i :: 0 <= i < |leaves| && leaves[i].character == c {
      assert Leaf(c, freq[c]) in multiset(leaves);
      var i :| 0 <= i < |leaves| && leaves[i] == Leaf(c, freq[c]);
    }
    assert |leaves| == |multiset(leaves)| == |multiset(ls)| == |ls|;
    assert NoDuplicates(ls);
    PermutationNoDuplicates(leaves, ls);
  }

  /** Records that carry the leaves' characters, position by position, form a table of the map. */
  lemma CharsFromLeaves(w: seq<Huffman>, leaves: seq<Tree>, freq: map<Char, int>)
    requires |w| == |leaves| && NoDuplicates(leaves) && |leaves| == |freq|
    requires forall i :: 0 <= i < |leaves| ==>
      leaves[i].Node? && w[i].character == leaves[i].character &&
      leaves[i].character in freq && leaves[i] == Leaf(leaves[i].character, freq[leaves[i].character])
    requires forall c :: c in freq ==> exists i :: 0 <= i < |leaves| && leaves[i].character == c
    ensures TableOf(w, freq)
  {
    forall i, j | 0 <= i < |w| && 0 <= j < |w| && i != j ensures w[i].character != w[j].character {
      assert leaves[i] != leaves[j];
    }
    forall c | c in freq ensures exists i :: 0 <= i < |w| && w[i].character == c {
      var i :| 0 <= i < |leaves| && leaves[i].character == c;
      assert w[i].character == c;
    }
  }

  /** Without the marker among the characters, no leaf is skipped by the walk. */
  lemma GoodTreeUnmarked(root: Tree, freq: map<Char, int>)
    requires GoodTree(root, freq)
    ensures root.Node? && Shaped(root) && LeavesUnmarked(root)
  {
    LeavesAreEntries(LeafList(root), freq);
  }

  /** The walk of a good tree has one record per map entry and no character twice. */
  lemma WalkTable(root: Tree, freq: map<Char, int>)
    requires GoodTree(root, freq)
    ensures TableOf(InOrder(root, []), freq)
  {
    GoodTreeUnmarked(root, freq);
    LeavesAreEntries(LeafList(root), freq);
    ShapedWalkLeaves(root, []);
    CharsFromLeaves(InOrder(root, []), LeafList(root), freq);
  }

  /**
    The codes of the walk of a full tree of depth at most 31: prefix-free,
    with lengths that fit and satisfy the Kraft equality; a lone leaf gets
    length 0, otherwise every length is positive.
  */
  lemma WalkCodes(root: Tree)
    requires Shaped(root) && LeavesUnmarked(root) && Height(root) <= MAX_LENGTH
    ensures PrefixFree(InOrder(root, [])) && LengthsOK(InOrder(root, []))
  {
    ShapedWalkPrefixFree(root, []);
    ShapedWalkDepths(root, []);
    ShapedWalkKraft(root, []);
    if IsLeaf(root) {
      LeafOnly(root, []);
    }
  }

  /** A permutation has the same length and the same members. */
  lemma PermutationMembers(w: seq<Huffman>, s: seq<Huffman>)
    requires multiset(w) == multiset(s)
    ensures |s| == |w|
    ensures forall i :: 0 <= i < |s| ==> s[i] in w
    ensures forall j :: 0 <= j < |w| ==> w[j] in s
  {
    assert |s| == |multiset(s)| == |multiset(w)| == |w|;
    forall i | 0 <= i < |s| ensures s[i] in w {
      assert s[i] in multiset(w);
    }
    forall j | 0 <= j < |w| ensures w[j] in s {
      assert w[j] in multiset(s);
    }
  }

  /** A permutation of a table is a table of the same map. */
  lemma PermutedTable(w: seq<Huffman>, s: seq<Huffman>, freq: map<Char, int>)
    requires multiset(w) == multiset(s) && TableOf(w, freq)
    ensures TableOf(s, freq)
  {
    PermutationDistinct(w, s);
    PermutationMembers(w, s);
    forall c | c in freq ensures exists i :: 0 <= i < |s| && s[i].character == c {
      var j :| 0 <= j < |w| && w[j].character == c;
      var i :| 0 <= i < |s| && s[i] == w[j];
    }
    forall i | 0 <= i < |s| ensures s[i].character in freq {
      var j :| 0 <= j < |w| && w[j] == s[i];
    }
  }

  /** A permutation keeps lengths that fit, their Kraft sum, and their positivity. */
  lemma PermutedLengths(w: seq<Huffman>, s: seq<Huffman>)
    requires multiset(w) == multiset(s) && LengthsOK(w) && KraftUnits(s) == KraftUnits(w)
    ensures LengthsOK(s)
  {
    PermutationMembers(w, s);
    if |w| == 1 && w[0].length == 0 {
      assert s[0] in w;
    }
  }

  /** Sorting keeps the table and its lengths, and orders the lengths non-increasingly. */
  lemma SortedTable(w: seq<Huffman>, freq: map<Char, int>)
    requires TableOf(w, freq) && LengthsOK(w)
    ensures TableOf(SortHuffmanList(w), freq) && LengthsOK(SortHuffmanList(w)) && NonIncreasing(SortHuffmanList(w))
  {
    var s := SortHuffmanList(w);
    SortKraft(w);
    PermutedTable(w, s, freq);
    PermutedLengths(w, s);
  }

  /** Records that keep the characters position by position form a table of the same map. */
  lemma SameCharsTable(s: seq<Huffman>, r: seq<Huffman>, freq: map<Char, int>)
    requires |r| == |s| && TableOf(s, freq)
    requires forall i :: 0 <= i < |s| ==> r[i].character == s[i].character
    ensures TableOf(r, freq)
  {
    forall c | c in freq ensures exists i :: 0 <= i < |r| && r[i].character == c {
      var i :| 0 <= i < |s| && s[i].character == c;
      assert r[i].character == c;
    }
  }

  /** A lone record of length 0 gets the one-bit code 0. */
  lemma LoneCodeDecodable(s: seq<Huffman>)
    requires |s| == 1 && s[0].length == 0
    ensures PrefixFree(Canonicalize(s)) && LengthsFit(Canonicalize(s))
    ensures forall i :: 0 <= i < |s| ==> |Canonicalize(s)[i].binary| >= 1
  {
    assert s == [s[0]];
    SingleRecord(s[0]);
  }

  /** Canonical codes for positive sorted lengths with the Kraft equality are non-empty and prefix-free. */
  lemma PositiveCodesDecodable(s: seq<Huffman>)
    requires |s| > 0 && PositiveLengths(s) && NonIncreasing(s) && KraftUnits(s) == Pow2(MAX_LENGTH)
    ensures PrefixFree(Canonicalize(s)) && LengthsFit(Canonicalize(s))
    ensures forall i :: 0 <= i < |s| ==> |Canonicalize(s)[i].binary| >= 1
  {
    var r := Canonicalize(s);
    CanonicalPrefixFree(s);
    forall i | 0 <= i < |r| ensures 0 <= r[i].length <= MAX_LENGTH {
      assert r[i].length == s[i].length;
    }
  }

  /** Canonical codes on a sorted table: the same table, now decodable. */
  lemma CanonicalTable(s: seq<Huffman>, freq: map<Char, int>)
    requires TableOf(s, freq) && LengthsOK(s) && NonIncreasing(s) && |s| > 0
    ensures TableOf(Canonicalize(s), freq) && Decodable(Canonicalize(s))
  {
    SameCharsTable(s, Canonicalize(s), freq);
    if |s| == 1 && s[0].length == 0 {
      LoneCodeDecodable(s);
    } else {
      PositiveCodesDecodable(s);
    }
  }

  /**
    The encoder's table for a good tree: one record per map entry, no
    character twice, and non-empty prefix-free codes.
  */
  lemma CodeListDecodable(root: Tree, freq: map<Char, int>)
    requires GoodTree(root, freq)
    ensures TableOf(CodeList(root), freq) && Decodable(CodeList(root))
    ensures TableOf(SortedWalk(root), freq)
  {
    GoodTreeUnmarked(root, freq);
    WalkTable(root, freq);
    WalkCodes(root);
    SortedTable(InOrder(root, []), freq);
    CanonicalTable(SortedWalk(root), freq);
  }
}
