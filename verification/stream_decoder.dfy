/**
  `writeFile`: the decoder's inner loop. Bits are tried as a growing prefix,
  one bit longer each time, until the prefix is a key of the lookup map.
  A match on the sentinel stops the output; any other match writes the
  character's low byte and starts over on the bits after it. Bits that
  match nothing are carried over to the next eight-bit string.
*/
module StreamDecoder {
  import opened Types
  import opened Binary
  import opened Codes
  import opened Lookup

  /** What decoding a bit string yields: the bytes written, the unmatched rest, and whether the sentinel was met. */
  datatype Decoded = Decoded(output: seq<Byte>, rest: Bits, done: bool)

  /** The shortest prefix of length at least k that is a key, if any. */
  function MatchFrom(table: map<Bits, Char>, bits: Bits, k: nat): (r: Option<nat>)
    requires k >= 1
    ensures r.Some? ==> k <= r.value <= |bits| && bits[..r.value] in table
    ensures r.Some? ==> forall m :: k <= m < r.value ==> bits[..m] !in table
    ensures r.None? ==> forall m :: k <= m <= |bits| ==> bits[..m] !in table
    decreases |bits| + 1 - k
  {
    if k > |bits| then None
    else if bits[..k] in table then Some(k)
    else MatchFrom(table, bits, k + 1)
  }

  /** No non-empty prefix of the bits is a key. */
  predicate NoMatch(table: map<Bits, Char>, bits: Bits) {
    forall m :: 1 <= m <= |bits| ==> bits[..m] !in table
  }

  /** Bytes written before a decoding result are prepended to its output. */
  function Prepend(out: seq<Byte>, d: Decoded): (r: Decoded)
    ensures r.output == out + d.output && r.rest == d.rest && r.done == d.done
  {
    Decoded(out + d.output, d.rest, d.done)
  }

  /**
    Greedy decoding of one bit string: the output of every shortest-prefix
    match up to the sentinel, and, when the sentinel is not met, the
    unmatched bits at the end.
  */
  function Greedy(table: map<Bits, Char>, bits: Bits): (r: Decoded)
    ensures |r.output| <= |bits|
    ensures !r.done ==> |r.rest| <= |bits| && NoMatch(table, r.rest)
    ensures r.done ==> r.rest == []
    decreases |bits|
  {
    match MatchFrom(table, bits, 1)
    case None => Decoded([], bits, false)
    case Some(k) =>
      var c := table[bits[..k]];
      if c == SENTINEL then Decoded([], [], true)
      else
        Prepend([Low8(c)], Greedy(table, bits[k..]))
  }

  /** When the first key among the prefixes has length k, greedy decoding matches it. */
  lemma FirstMatchIs(table: map<Bits, Char>, bits: Bits, k: nat)
    requires 1 <= k <= |bits| && bits[..k] in table
    requires forall m :: 1 <= m < k ==> bits[..m] !in table
    ensures MatchFrom(table, bits, 1) == Some(k)
  {
    var r := MatchFrom(table, bits, 1);
  }

  /**
    Decoding a concatenation: bits that the first part leaves unmatched
    are carried into the second, and once the sentinel is met nothing that
    follows matters.
  */
  lemma {:induction false} GreedyAppend(table: map<Bits, Char>, a: Bits, b: Bits)
    ensures Greedy(table, a).done ==> Greedy(table, a + b) == Greedy(table, a)
    ensures !Greedy(table, a).done ==>
      Greedy(table, a + b) == Prepend(Greedy(table, a).output, Greedy(table, Greedy(table, a).rest + b))
    decreases |a|
  {
    var ga := Greedy(table, a);
    match MatchFrom(table, a, 1)
    case None =>
      assert ga == Decoded([], a, false);
      assert Prepend([], Greedy(table, a + b)) == Greedy(table, a + b);
    case Some(k) =>
      var ab := a + b;
      assert ab[..k] == a[..k];
      forall m | 1 <= m < k ensures ab[..m] !in table {
        assert ab[..m] == a[..m];
      }
      FirstMatchIs(table, ab, k);
      if table[a[..k]] != SENTINEL {
        assert ab[k..] == a[k..] + b;
        GreedyAppend(table, a[k..], b);
      }
  }

  /** Bits that start with a sentinel key and contain no shorter key decode to nothing, with the sentinel met. */
  lemma SentinelFirst(table: map<Bits, Char>, code: Bits, b: Bits)
    requires |code| >= 1 && code in table && table[code] == SENTINEL
    requires forall m :: 1 <= m < |code| ==> code[..m] !in table
    ensures Greedy(table, code + b) == Decoded([], [], true)
  {
    var bits := code + b;
    assert bits[..|code|] == code;
    forall m | 1 <= m < |code| ensures bits[..m] !in table {
      assert bits[..m] == code[..m];
    }
    FirstMatchIs(table, bits, |code|);
  }

  /**
    `writeFile`, loop for loop: the pointer and the carried-over bits live
    across the eight-bit strings. An index past the end of the current bits
    ends the inner loop, as the caught `IndexOutOfBoundsException` does;
    the sentinel's `break` also ends only the inner loop, and the next
    string starts by matching the sentinel again. The bytes written are
    those of greedy decoding of all the strings joined.
  */
  method WriteFile(table: map<Bits, Char>, chunks: seq<Bits>) returns (out: seq<Byte>)
    ensures out == Greedy(table, Flatten(chunks)).output
  {
    out := [];
    var pointer: nat := 1;
    var testingBits: Bits := [];
    for j := 0 to |chunks|
      invariant out == Greedy(table, Flatten(chunks[..j])).output
      invariant !Greedy(table, Flatten(chunks[..j])).done ==>
        testingBits == Greedy(table, Flatten(chunks[..j])).rest && pointer == |testingBits| + 1
      invariant Greedy(table, Flatten(chunks[..j])).done ==>
        1 <= pointer == |testingBits| && testingBits in table && table[testingBits] == SENTINEL &&
        forall m :: 1 <= m < pointer ==> testingBits[..m] !in table
    {
      ghost var before := Greedy(table, Flatten(chunks[..j]));
      ghost var whole := Greedy(table, Flatten(chunks[..j + 1]));
      assert chunks[..j + 1] == chunks[..j] + [chunks[j]];
      assert Flatten(chunks[..j + 1]) == Flatten(chunks[..j]) + chunks[j];
      GreedyAppend(table, Flatten(chunks[..j]), chunks[j]);
      var bit := testingBits + chunks[j];
      forall m | 1 <= m < pointer ensures bit[..m] !in table {
        assert bit[..m] == testingBits[..m];
      }
      if before.done {
        SentinelFirst(table, testingBits, chunks[j]);
      }
      assert whole == Prepend(out, Greedy(table, bit));
      out, pointer, testingBits := DecodeBits(table, bit, pointer, testingBits, out, whole);
    }
    assert chunks[..|chunks|] == chunks;
  }

  /**
    The inner loop over the current bits. On leaving it, either every bit
    was tried without a match and all of them are carried over, or the
    sentinel matched and its code is kept for the next round.
  */
  method DecodeBits(table: map<Bits, Char>, bit: Bits, pointer: nat, testingBits: Bits,
                    out: seq<Byte>, ghost whole: Decoded)
    returns (out': seq<Byte>, pointer': nat, testingBits': Bits)
    requires 1 <= pointer <= |bit| + 1
    requires forall m :: 1 <= m < pointer ==> bit[..m] !in table
    requires pointer == |bit| + 1 ==> testingBits == bit
    requires whole == Prepend(out, Greedy(table, bit))
    ensures out' == whole.output
    ensures !whole.done ==> testingBits' == whole.rest && pointer' == |testingBits'| + 1
    ensures whole.done ==>
      1 <= pointer' == |testingBits'| && testingBits' in table && table[testingBits'] == SENTINEL &&
      forall m :: 1 <= m < pointer' ==> testingBits'[..m] !in table
  {
    out', pointer', testingBits' := out, pointer, testingBits;
    var rest := bit;
    while true
      invariant 1 <= pointer' <= |rest| + 1
      invariant forall m :: 1 <= m < pointer' ==> rest[..m] !in table
      invariant pointer' == |rest| + 1 ==> testingBits' == rest
      invariant whole == Prepend(out', Greedy(table, rest))
      decreases |rest|, |rest| + 1 - pointer'
    {
      if pointer' > |rest| {
        NoMatchExit(table, rest);
        break;
      }
      testingBits' := rest[..pointer'];
      if testingBits' in table {
        if table[testingBits'] == SENTINEL {
          SentinelExit(table, rest, pointer');
          break;
        }
        MatchStep(table, rest, pointer', out');
        out' := out' + [Low8(table[testingBits'])];
        rest := rest[pointer'..];
        testingBits' := rest;
        pointer' := 1;
      } else {
        pointer' := pointer' + 1;
      }
    }
  }

  /** Bits with no key among their prefixes decode to nothing and are carried over whole. */
  lemma NoMatchExit(table: map<Bits, Char>, rest: Bits)
    requires forall m :: 1 <= m < |rest| + 1 ==> rest[..m] !in table
    ensures Greedy(table, rest) == Decoded([], rest, false)
  {
    var r := MatchFrom(table, rest, 1);
  }

  /** A first match on the sentinel stops decoding, its code being all prefixes tried. */
  lemma SentinelExit(table: map<Bits, Char>, rest: Bits, p: nat)
    requires 1 <= p <= |rest| && rest[..p] in table && table[rest[..p]] == SENTINEL
    requires forall m :: 1 <= m < p ==> rest[..m] !in table
    ensures Greedy(table, rest) == Decoded([], [], true)
    ensures forall m :: 1 <= m < p ==> rest[..p][..m] !in table
  {
    FirstMatchIs(table, rest, p);
    forall m | 1 <= m < p ensures rest[..p][..m] !in table {
      assert rest[..p][..m] == rest[..m];
    }
  }

  /** A first match on any other character writes its low byte and decoding goes on after it. */
  lemma MatchStep(table: map<Bits, Char>, rest: Bits, p: nat, out: seq<Byte>)
    requires 1 <= p <= |rest| && rest[..p] in table && table[rest[..p]] != SENTINEL
    requires forall m :: 1 <= m < p ==> rest[..m] !in table
    ensures Prepend(out, Greedy(table, rest)) == Prepend(out + [Low8(table[rest[..p]])], Greedy(table, rest[p..]))
  {
    FirstMatchIs(table, rest, p);
    var d := Greedy(table, rest[p..]);
    assert out + ([Low8(table[rest[..p]])] + d.output) == (out + [Low8(table[rest[..p]])]) + d.output;
  }

  /** A prefix-free list has no code twice. */
  lemma PrefixFreeDistinct(list: seq<Huffman>)
    requires PrefixFree(list)
    ensures DistinctCodes(list)
  {
    forall i, j | 0 <= i < |list| && 0 <= j < |list| && i != j
      ensures list[i].binary != list[j].binary
    {
      assert !IsPrefix(list[i].binary, list[j].binary);
    }
  }

  /**
    Decoding with the lookup map of a prefix-free list of non-empty codes:
    bits that start with a record's code yield that record's character, or
    stop at once when it is the sentinel.
  */
  lemma GreedyOnCodes(list: seq<Huffman>, i: nat, rest: Bits)
    requires PrefixFree(list) && i < |list|
    requires forall j :: 0 <= j < |list| ==> |list[j].binary| >= 1
    ensures list[i].character == SENTINEL ==>
      Greedy(LookupMap(list), list[i].binary + rest) == Decoded([], [], true)
    ensures list[i].character != SENTINEL ==>
      Greedy(LookupMap(list), list[i].binary + rest) ==
        Prepend([Low8(list[i].character)], Greedy(LookupMap(list), rest))
  {
    var table := LookupMap(list);
    var code := list[i].binary;
    var bits := code + rest;
    PrefixFreeDistinct(list);
    LookupMapLastWins(list, i);
    assert bits[..|code|] == code;
    forall m | 1 <= m < |code| ensures bits[..m] !in table {
      assert bits[..m] == code[..m];
      if code[..m] in table {
        var j :| 0 <= j < |list| && list[j].binary == code[..m];
        assert IsPrefix(list[j].binary, list[i].binary);
      }
    }
    FirstMatchIs(table, bits, |code|);
    assert bits[|code|..] == rest;
  }
}
