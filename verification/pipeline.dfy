/**
  `Encode.encode` and `Decode.decode`: the two programs put together. The
  encoder counts the input, builds the tree, walks, sorts and canonicalizes
  its codes and writes the file; the decoder reads the header back, sorts
  and canonicalizes the recovered lengths, and decodes the payload with the
  resulting lookup map. For inputs of at most 126 distinct byte-sized
  characters, none of them the interior marker 0x01, and a tree no deeper
  than 31, decoding the encoding gives the input back up to its first 0x00.
*/
module Pipeline {
  import opened Types
  import opened Binary
  import opened Codes
  import opened Nodes
  import opened TreeBuilder
  import opened TreeWalk
  import opened Sorting
  import opened Canonical
  import opened Lookup
  import opened Frequency
  import opened CodeTable
  import opened Packer
  import opened HeaderReader
  import opened StreamDecoder

  /** The encoded file for an input, given the tree the builder chose for it. */
  function EncodeWith(input: seq<Char>, root: Tree): (r: Result<seq<Byte>, EncodeError>)
    ensures r.Success? ==> |r.value| >= 1 + 2 * |CodeList(root)| && r.value[0] == Low8(|CodeList(root)|)
  {
    EncodedFile(CodeList(root), input)
  }

  /** The decoder's code table: the header's lengths, sorted and canonicalized. */
  function DecoderTable(file: seq<Byte>): (r: seq<Huffman>)
    ensures |r| == |ReadInputFile(file).pairs|
  {
    SortInputMapEntries(ReadInputFile(file).pairs);
    Canonicalize(SortInputMap(ReadInputFile(file).pairs))
  }

  /** The bytes `Decode.decode` writes for a file. */
  function DecodeFile(file: seq<Byte>): (r: seq<Byte>)
    ensures |r| <= 8 * |file|
  {
    var h := ReadInputFile(file);
    FlattenLength(h.chunks);
    Greedy(LookupMap(DecoderTable(file)), Flatten(h.chunks)).output
  }

  /** Eight bits per chunk. */
  lemma {:induction false} FlattenLength(chunks: seq<Bits>)
    requires forall i :: 0 <= i < |chunks| ==> |chunks[i]| == 8
    ensures |Flatten(chunks)| == 8 * |chunks|
  {
    if |chunks| > 0 {
      FlattenLength(chunks[..|chunks| - 1]);
    }
  }

  /**
    What the round trip yields: the low bytes of the input's characters up
    to, and not including, the first 0x00, which shares the end marker's
    code.
  */
  function UpToSentinel(input: seq<Char>): (r: seq<Byte>)
    ensures |r| <= |input|
    ensures forall i :: 0 <= i < |r| ==> input[i] != SENTINEL && r[i] == Low8(input[i])
    ensures |r| < |input| ==> input[|r|] == SENTINEL
  {
    if |input| == 0 || input[0] == SENTINEL then []
    else [Low8(input[0])] + UpToSentinel(input[1..])
  }

  /**
    The conditions of the round trip: the tree is a full tree of the
    input's counts, as every tree the builder returns is, no deeper than
    31; the characters fit in a byte; and the counts have at most 127
    keys, the sentinel 0x00 among them, so the signed count byte stays
    positive.
  */
  ghost predicate RoundTripReady(input: seq<Char>, root: Tree) {
    GoodTree(root, ReadInputMap(input)) &&
    |ReadInputMap(input)| < 0x80 &&
    forall i :: 0 <= i < |input| ==> input[i] < 0x100
  }

  /** Every character of the input has a code in the encoder's table, and so does the sentinel. */
  lemma InputCoded(input: seq<Char>, list: seq<Huffman>)
    requires TableOf(list, ReadInputMap(input))
    ensures forall i :: 0 <= i < |input| ==> input[i] in LookupMapEncodings(list)
    ensures SENTINEL in LookupMapEncodings(list)
  {
    var freq := ReadInputMap(input);
    forall i | 0 <= i < |input| ensures input[i] in LookupMapEncodings(list) {
      assert input[i] in freq;
    }
    assert SENTINEL in freq;
  }

  /** A good tree's table encodes the input without error. */
  lemma EncodeSucceeds(input: seq<Char>, root: Tree)
    requires GoodTree(root, ReadInputMap(input))
    ensures EncodeWith(input, root).Success?
  {
    var list := CodeList(root);
    CodeListDecodable(root, ReadInputMap(input));
    InputCoded(input, list);
    assert forall i :: 0 <= i < |list| ==> list[i].length >= 0;
    EncodedFileSucceeds(list, input);
  }

  /**
    A decodable table of the input's counts, with fewer than 128 records,
    encodes input of byte-sized characters into a file whose header lists
    the table and whose payload holds the codes, framed.
  */
  lemma TableEncoding(list: seq<Huffman>, input: seq<Char>)
    requires TableOf(list, ReadInputMap(input)) && Decodable(list) && |list| < 0x80
    requires forall i :: 0 <= i < |input| ==> input[i] < 0x100
    ensures EncodedFile(list, input).Success?
    ensures HeaderLayout(EncodedFile(list, input).value, list)
    ensures SENTINEL in LookupMapEncodings(list)
    ensures CodeStream(LookupMapEncodings(list), input).Success?
    ensures |EncodedFile(list, input).value| >= 1 + 2 * |list|
    ensures Flatten(Unpack(EncodedFile(list, input).value[1 + 2 * |list|..])) ==
      Frame(CodeStream(LookupMapEncodings(list), input).value + LookupMapEncodings(list)[SENTINEL])
  {
    InputCoded(input, list);
    EncodedFileLayout(list, input);
    HeaderBytes(input, list, EncodedFile(list, input).value);
  }

  /** Header bytes of byte-sized characters and lengths up to 31 read back unchanged. */
  lemma HeaderBytes(input: seq<Char>, list: seq<Huffman>, file: seq<Byte>)
    requires TableOf(list, ReadInputMap(input)) && LengthsFit(list) && |list| < 0x80
    requires forall i :: 0 <= i < |input| ==> input[i] < 0x100
    requires |file| >= 1 + 2 * |list| && file[0] == Low8(|list|)
    requires forall i :: 0 <= i < |list| ==>
      file[1 + 2 * i] == Low8(list[i].character) && file[2 + 2 * i] == Low8(list[i].length)
    ensures HeaderLayout(file, list)
  {
    var freq := ReadInputMap(input);
    forall i | 0 <= i < |list| ensures list[i].character < 0x100 {
      var c := list[i].character;
      assert c in freq;
      if c != SENTINEL {
        var k :| 0 <= k < |input| && input[k] == c;
      }
    }
  }

  /**
    The decoder rebuilds the encoder's table: the header's lengths, sorted,
    are the sorted walk's records with placeholder codes, and the canonical
    codes depend only on characters and lengths.
  */
  lemma RecoveredTable(s: seq<Huffman>, pairs: map<Char, int>)
    requires Sorted(s) && DistinctChars(s)
    requires forall c :: c in pairs <==> exists i :: 0 <= i < |s| && s[i].character == c
    requires forall i :: 0 <= i < |s| ==> pairs[s[i].character] == s[i].length
    ensures Canonicalize(SortInputMap(pairs)) == Canonicalize(s)
  {
    SortedIsStripped(s, pairs);
    CanonicalizeIgnoresCodes(Strip(s), s);
  }

  /**
    Sorting the map's entries rebuilds the list with placeholder codes:
    both are sorted, have distinct characters and the same members.
  */
  lemma SortedIsStripped(s: seq<Huffman>, pairs: map<Char, int>)
    requires Sorted(s) && DistinctChars(s)
    requires forall c :: c in pairs <==> exists i :: 0 <= i < |s| && s[i].character == c
    requires forall i :: 0 <= i < |s| ==> pairs[s[i].character] == s[i].length
    ensures SortInputMap(pairs) == Strip(s)
  {
    SortInputMapEntries(pairs);
    StripMembers(s, pairs);
    forall h ensures h in SortInputMap(pairs) <==> h in Strip(s) {
      assert h in SortInputMap(pairs) <==> h.character in pairs && h == NewHuffman(h.character, pairs[h.character]);
    }
    SortedUniqueMembers(SortInputMap(pairs), Strip(s));
  }

  /** The placeholder records of a list whose lengths a map records are the map's entries. */
  lemma StripMembers(s: seq<Huffman>, pairs: map<Char, int>)
    requires forall c :: c in pairs <==> exists i :: 0 <= i < |s| && s[i].character == c
    requires forall i :: 0 <= i < |s| ==> pairs[s[i].character] == s[i].length
    ensures forall h :: h in Strip(s) <==> h.character in pairs && h == NewHuffman(h.character, pairs[h.character])
  {
    var stripped := Strip(s);
    forall h | h in stripped ensures h.character in pairs && h == NewHuffman(h.character, pairs[h.character]) {
      var i :| 0 <= i < |s| && stripped[i] == h;
    }
    forall h: Huffman | h.character in pairs && h == NewHuffman(h.character, pairs[h.character]) ensures h in stripped {
      var i :| 0 <= i < |s| && s[i].character == h.character;
      assert stripped[i] == h;
    }
  }

  /**
    A map that records a list's lengths under its characters also records
    those of any list with the same characters and lengths position by
    position.
  */
  lemma PairsOfSameRecords(list: seq<Huffman>, s: seq<Huffman>, pairs: map<Char, int>)
    requires |list| == |s|
    requires forall i :: 0 <= i < |s| ==> list[i].character == s[i].character && list[i].length == s[i].length
    requires forall c :: c in pairs <==> exists i :: 0 <= i < |list| && list[i].character == c
    requires forall i :: 0 <= i < |list| ==> pairs[list[i].character] == list[i].length
    ensures forall c :: c in pairs <==> exists i :: 0 <= i < |s| && s[i].character == c
    ensures forall i :: 0 <= i < |s| ==> pairs[s[i].character] == s[i].length
  {
    forall c ensures c in pairs <==> exists i :: 0 <= i < |s| && s[i].character == c {
      if c in pairs {
        var i :| 0 <= i < |list| && list[i].character == c;
        assert s[i].character == c;
      }
      if exists i :: 0 <= i < |s| && s[i].character == c {
        var i :| 0 <= i < |s| && s[i].character == c;
        assert list[i].character == c;
      }
    }
  }

  /** The header of a ready input's encoding gives the decoder the encoder's table. */
  lemma DecoderGetsTable(input: seq<Char>, root: Tree)
    requires RoundTripReady(input, root)
    ensures EncodedFile(CodeList(root), input).Success?
    ensures DecoderTable(EncodedFile(CodeList(root), input).value) == CodeList(root)
  {
    var list := CodeList(root);
    var s := SortedWalk(root);
    CodeListDecodable(root, ReadInputMap(input));
    TableEncoding(list, input);
    var file := EncodedFile(list, input).value;
    HeaderRoundTrip(file, list);
    var pairs := ReadInputFile(file).pairs;
    PairsOfSameRecords(list, s, pairs);
    RecoveredTable(s, pairs);
    assert DecoderTable(file) == list;
  }

  /**
    Decoding the codes of an input followed by the sentinel's code and any
    padding, with the lookup map of a decodable table that codes every
    character: the input up to its first 0x00.
  */
  lemma {:induction false} DecodeStream(list: seq<Huffman>, input: seq<Char>, pad: Bits)
    requires Decodable(list)
    requires forall i :: 0 <= i < |input| ==> input[i] in LookupMapEncodings(list)
    requires SENTINEL in LookupMapEncodings(list)
    ensures CodeStream(LookupMapEncodings(list), input).Success?
    ensures Greedy(LookupMap(list),
      CodeStream(LookupMapEncodings(list), input).value + LookupMapEncodings(list)[SENTINEL] + pad).output
      == UpToSentinel(input)
    decreases |input|
  {
    if |input| == 0 {
      EmptyStream(list, pad);
    } else {
      var rest := input[1..];
      assert input == [input[0]] + rest;
      if input[0] != SENTINEL {
        DecodeStream(list, rest, pad);
      }
      StreamStep(list, input[0], rest, pad);
    }
  }

  /** With no input left, decoding meets the sentinel's code at once. */
  lemma EmptyStream(list: seq<Huffman>, pad: Bits)
    requires Decodable(list) && SENTINEL in LookupMapEncodings(list)
    ensures CodeStream(LookupMapEncodings(list), []).Success?
    ensures Greedy(LookupMap(list),
      CodeStream(LookupMapEncodings(list), []).value + LookupMapEncodings(list)[SENTINEL] + pad).output == []
  {
    var enc := LookupMapEncodings(list);
    var j :| 0 <= j < |list| && list[j].character == SENTINEL;
    EncodingsLastWins(list, j);
    assert CodeStream(enc, []).value == [];
    EmptyFront(enc[SENTINEL], pad);
    GreedyOnCodes(list, j, pad);
  }

  /**
    One character in front of the rest: its code decodes to its low byte,
    or stops decoding when it is 0x00, and decoding goes on with the rest.
  */
  lemma StreamStep(list: seq<Huffman>, c: Char, rest: seq<Char>, pad: Bits)
    requires Decodable(list) && c in LookupMapEncodings(list) && SENTINEL in LookupMapEncodings(list)
    requires forall i :: 0 <= i < |rest| ==> rest[i] in LookupMapEncodings(list)
    requires c != SENTINEL ==>
      && CodeStream(LookupMapEncodings(list), rest).Success?
      && Greedy(LookupMap(list),
           CodeStream(LookupMapEncodings(list), rest).value + LookupMapEncodings(list)[SENTINEL] + pad).output
         == UpToSentinel(rest)
    ensures CodeStream(LookupMapEncodings(list), [c] + rest).Success?
    ensures Greedy(LookupMap(list),
      CodeStream(LookupMapEncodings(list), [c] + rest).value + LookupMapEncodings(list)[SENTINEL] + pad).output
      == UpToSentinel([c] + rest)
  {
    var enc := LookupMapEncodings(list);
    var j :| 0 <= j < |list| && list[j].character == c;
    EncodingsLastWins(list, j);
    ConsStream(enc, c, rest, pad);
    GreedyOnCodes(list, j, CodeStream(enc, rest).value + enc[SENTINEL] + pad);
    UpToSentinelCons(c, rest);
  }

  /** The codes of a character in front of the rest, then the sentinel's code and padding, regrouped. */
  lemma ConsStream(enc: map<Char, Bits>, c: Char, rest: seq<Char>, pad: Bits)
    requires c in enc && SENTINEL in enc && forall i :: 0 <= i < |rest| ==> rest[i] in enc
    ensures CodeStream(enc, [c] + rest).Success? && CodeStream(enc, rest).Success?
    ensures CodeStream(enc, [c] + rest).value + enc[SENTINEL] + pad ==
      enc[c] + (CodeStream(enc, rest).value + enc[SENTINEL] + pad)
  {
    CodeStreamCons(enc, c, rest);
    Regroup(enc[c], CodeStream(enc, rest).value, enc[SENTINEL], pad);
  }

  /** The bytes kept from a character in front of the rest. */
  lemma UpToSentinelCons(c: Char, rest: seq<Char>)
    ensures UpToSentinel([c] + rest) == if c == SENTINEL then [] else [Low8(c)] + UpToSentinel(rest)
  {
    assert ([c] + rest)[1..] == rest;
  }

  lemma EmptyFront(a: Bits, b: Bits)
    ensures [] + a + b == a + b
  {
    assert [] + a == a;
  }

  lemma Regroup(a: Bits, b: Bits, c: Bits, d: Bits)
    ensures (a + b) + c + d == a + (b + c + d)
  {
  }

  /**
    The round trip: for a ready input, encoding succeeds and decoding the
    file gives the input's bytes up to its first 0x00.
  */
  lemma RoundTrip(input: seq<Char>, root: Tree)
    requires RoundTripReady(input, root)
    ensures EncodeWith(input, root).Success?
    ensures DecodeFile(EncodeWith(input, root).value) == UpToSentinel(input)
  {
    var list := CodeList(root);
    var enc := LookupMapEncodings(list);
    CodeListDecodable(root, ReadInputMap(input));
    TableEncoding(list, input);
    DecoderGetsTable(input, root);
    var file := EncodedFile(list, input).value;
    HeaderRoundTrip(file, list);
    var bits := CodeStream(enc, input).value;
    DecodeStream(list, input, Zeros(PadCount(|bits + enc[SENTINEL]|)));
    assert Flatten(ReadInputFile(file).chunks) == Frame(bits + enc[SENTINEL]);
    assert DecodeFile(file) == UpToSentinel(input);
  }

  /** An input of bytes without 0x00 or 0x01 survives the round trip whole. */
  lemma RoundTripWhole(input: seq<Char>, root: Tree)
    requires RoundTripReady(input, root)
    requires forall i :: 0 <= i < |input| ==> input[i] != SENTINEL
    ensures EncodeWith(input, root).Success?
    ensures DecodeFile(EncodeWith(input, root).value) == input
  {
    RoundTrip(input, root);
    UpToSentinelWhole(input);
  }

  /** Byte-sized characters without 0x00 are kept whole. */
  lemma UpToSentinelWhole(input: seq<Char>)
    requires forall i :: 0 <= i < |input| ==> input[i] != SENTINEL && input[i] < 0x100
    ensures UpToSentinel(input) == input
  {
    var r := UpToSentinel(input);
    assert |r| == |input|;
    forall i | 0 <= i < |r| ensures r[i] == input[i] {
      assert r[i] == Low8(input[i]);
    }
  }

  /**
    An input holding the interior marker 0x01 cannot be encoded: the walk
    never emits a record for that character, so it has no code.
  */
  lemma InteriorFails(input: seq<Char>, root: Tree)
    requires INTERIOR in input
    ensures EncodeWith(input, root).Failure?
    ensures EncodeWith(input, root).error.MissingCode?
  {
    var list := CodeList(root);
    var enc := LookupMapEncodings(list);
    CodeListRecords(root);
    assert HeaderPairs(list).Success?;
    assert INTERIOR !in enc;
    assert CodeStream(enc, input).Failure?;
  }

  /** The encoder's table has no record for the interior marker and no negative length. */
  lemma CodeListRecords(root: Tree)
    ensures forall i :: 0 <= i < |CodeList(root)| ==>
      CodeList(root)[i].character != INTERIOR && CodeList(root)[i].length >= 0
  {
    WalkRecords(InOrder(root, []), SortedWalk(root));
  }

  /** Records of the walk, in any order, are unmarked and have non-negative lengths. */
  lemma WalkRecords(w: seq<Huffman>, s: seq<Huffman>)
    requires multiset(w) == multiset(s)
    requires forall i :: 0 <= i < |w| ==> w[i].character != INTERIOR && w[i].length >= 0
    ensures forall i :: 0 <= i < |s| ==> s[i].character != INTERIOR && s[i].length >= 0
  {
    forall i | 0 <= i < |s| ensures s[i].character != INTERIOR && s[i].length >= 0 {
      assert s[i] in multiset(w);
      var j :| 0 <= j < |w| && w[j] == s[i];
    }
  }

  /** The decoder on an empty file writes nothing. */
  lemma EmptyFile()
    ensures DecodeFile([]) == []
  {
  }

  /**
    `Encode.encode`: count, build, walk, sort, canonicalize, write. The
    tree is the builder's choice among equal counts; for a ready input the
    file decodes back to the input up to its first 0x00, and an input with
    0x01 fails.
  */
  method Encode(input: seq<Char>) returns (root: Tree, r: Result<seq<Byte>, EncodeError>)
    ensures IsHuffmanTreeOf(root, ReadInputMap(input))
    ensures r == EncodeWith(input, root)
    ensures RoundTripReady(input, root) ==> r.Success? && DecodeFile(r.value) == UpToSentinel(input)
    ensures INTERIOR in input ==> r.Failure?
  {
    var freq := ReadInputMap(input);
    root := HuffmanTree(freq);
    var walk := InOrder(root, []);
    var sorted := SortHuffmanList(walk);
    var list := Canonicalize(sorted);
    r := WriteEncodedFile(list, input);
    EncodeOutcome(input, root);
  }

  /** A ready input round-trips, and an input holding the interior marker fails. */
  lemma EncodeOutcome(input: seq<Char>, root: Tree)
    ensures RoundTripReady(input, root) ==>
      EncodeWith(input, root).Success? && DecodeFile(EncodeWith(input, root).value) == UpToSentinel(input)
    ensures INTERIOR in input ==> EncodeWith(input, root).Failure?
  {
    if RoundTripReady(input, root) {
      RoundTrip(input, root);
    }
    if INTERIOR in input {
      InteriorFails(input, root);
    }
  }

  /**
    `Decode.decode`: read the header and payload, sort the lengths,
    canonicalize, build the lookup map and decode the payload.
  */
  method Decode(file: seq<Byte>) returns (out: seq<Byte>)
    ensures out == DecodeFile(file)
    ensures |file| == 0 ==> out == []
  {
    var h := ReadInputFile(file);
    var list := SortInputMap(h.pairs);
    list := Canonicalize(list);
    var table := LookupMap(list);
    out := WriteFile(table, h.chunks);
  }
}
