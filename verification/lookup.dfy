/**
  `lookupMap` and `lookupMapEncodings`: the two hash maps built from a
  record list, code to character for decoding and character to code for
  encoding. Both are filled in list order, so a later record overwrites an
  earlier one with the same key.
*/
module Lookup {
  import opened Types

  /** `lookupMap`: code to character, the last record with a given code winning. */
  function LookupMap(list: seq<Huffman>): (m: map<Bits, Char>)
    ensures forall b :: b in m <==> exists i :: 0 <= i < |list| && list[i].binary == b
  {
    if |list| == 0 then map[]
    else
      var front := list[..|list| - 1];
      var last := list[|list| - 1];
      assert forall i :: 0 <= i < |front| ==> front[i] == list[i];
      LookupMap(front)[last.binary := last.character]
  }

  /** `lookupMapEncodings`: character to code, the last record with a given character winning. */
  function LookupMapEncodings(list: seq<Huffman>): (m: map<Char, Bits>)
    ensures forall c :: c in m <==> exists i :: 0 <= i < |list| && list[i].character == c
  {
    if |list| == 0 then map[]
    else
      var front := list[..|list| - 1];
      var last := list[|list| - 1];
      assert forall i :: 0 <= i < |front| ==> front[i] == list[i];
      LookupMapEncodings(front)[last.character := last.binary]
  }

  /** Each code maps to the character of the last record that carries it. */
  lemma {:induction false} LookupMapLastWins(list: seq<Huffman>, i: nat)
    requires i < |list|
    requires forall j :: i < j < |list| ==> list[j].binary != list[i].binary
    ensures LookupMap(list)[list[i].binary] == list[i].character
  {
    if i < |list| - 1 {
      var front := list[..|list| - 1];
      assert front[i] == list[i];
      LookupMapLastWins(front, i);
    }
  }

  /** Each character maps to the code of the last record that carries it. */
  lemma {:induction false} EncodingsLastWins(list: seq<Huffman>, i: nat)
    requires i < |list|
    requires forall j :: i < j < |list| ==> list[j].character != list[i].character
    ensures LookupMapEncodings(list)[list[i].character] == list[i].binary
  {
    if i < |list| - 1 {
      var front := list[..|list| - 1];
      assert front[i] == list[i];
      EncodingsLastWins(front, i);
    }
  }

  /** No two records share a code. */
  predicate DistinctCodes(list: seq<Huffman>) {
    forall i, j :: 0 <= i < |list| && 0 <= j < |list| && i != j ==> list[i].binary != list[j].binary
  }

  /**
    With distinct characters and distinct codes the two maps are inverse
    to each other: encoding a character and looking the code up gives the
    character back, and the other way round.
  */
  lemma LookupInverse(list: seq<Huffman>)
    requires DistinctChars(list) && DistinctCodes(list)
    ensures forall i :: 0 <= i < |list| ==>
      LookupMapEncodings(list)[list[i].character] == list[i].binary &&
      LookupMap(list)[list[i].binary] == list[i].character
    ensures forall c :: c in LookupMapEncodings(list) ==>
      LookupMapEncodings(list)[c] in LookupMap(list) &&
      LookupMap(list)[LookupMapEncodings(list)[c]] == c
    ensures forall b :: b in LookupMap(list) ==>
      LookupMap(list)[b] in LookupMapEncodings(list) &&
      LookupMapEncodings(list)[LookupMap(list)[b]] == b
  {
    forall i | 0 <= i < |list|
      ensures LookupMapEncodings(list)[list[i].character] == list[i].binary
      ensures LookupMap(list)[list[i].binary] == list[i].character
    {
      EncodingsLastWins(list, i);
      LookupMapLastWins(list, i);
    }
  }
}
