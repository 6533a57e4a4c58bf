/**
  Properties of a code table: prefix-freedom and the Kraft sum. The Kraft
  sum, the sum of 2^-length over the symbols, is counted here in units of
  2^-31, so a complete code has a sum of exactly 2^31.
*/
module Codes {
  import opened Types
  import opened Binary

  /**
    The longest code length the proofs speak of. The Kraft sum is counted
    in fixed units of 2^-31, so longer codes fall outside it; the code
    itself has no such limit.
  */
  const MAX_LENGTH: nat := 31

  /** 2^-length, in units of 2^-31; zero for lengths outside 0..31. */
  function Weight(length: int): nat {
    if 0 <= length <= MAX_LENGTH then Pow2(MAX_LENGTH - length) else 0
  }

  /** The Kraft sum of the records' lengths, in units of 2^-31. */
  function KraftUnits(list: seq<Huffman>): nat {
    if |list| == 0 then 0 else Weight(list[0].length) + KraftUnits(list[1..])
  }

  /** Every length lies in 0..31. */
  predicate LengthsFit(list: seq<Huffman>) {
    forall i :: 0 <= i < |list| ==> 0 <= list[i].length <= MAX_LENGTH
  }

  /** The Kraft equality: the lengths describe a complete code. */
  predicate KraftComplete(list: seq<Huffman>) {
    LengthsFit(list) && KraftUnits(list) == Pow2(MAX_LENGTH)
  }

  /** No record's code is a prefix of another record's code. */
  predicate PrefixFree(list: seq<Huffman>) {
    forall i, j :: 0 <= i < |list| && 0 <= j < |list| && i != j ==>
      !IsPrefix(list[i].binary, list[j].binary)
  }

  lemma {:induction false} KraftAppend(a: seq<Huffman>, b: seq<Huffman>)
    ensures KraftUnits(a + b) == KraftUnits(a) + KraftUnits(b)
    decreases |a|
  {
    if |a| == 0 {
      assert a + b == b;
    } else {
      assert (a + b)[1..] == a[1..] + b;
      KraftAppend(a[1..], b);
    }
  }

  /**
    Two prefix-free lists whose codes extend `p` followed by different bits
    form a prefix-free list together.
  */
  lemma PrefixFreeJoin(a: seq<Huffman>, b: seq<Huffman>, p: Bits)
    requires PrefixFree(a) && PrefixFree(b)
    requires forall i :: 0 <= i < |a| ==> IsPrefix(p + [false], a[i].binary)
    requires forall i :: 0 <= i < |b| ==> IsPrefix(p + [true], b[i].binary)
    ensures PrefixFree(a + b)
  {
    var ab := a + b;
    forall i, j | 0 <= i < |ab| && 0 <= j < |ab| && i != j
      ensures !IsPrefix(ab[i].binary, ab[j].binary)
    {
      if i < |a| && j >= |a| {
        SplitAt(ab[i].binary, ab[j].binary, p);
      } else if i >= |a| && j < |a| {
        SplitAt(ab[j].binary, ab[i].binary, p);
      } else if i < |a| {
        assert ab[i] == a[i] && ab[j] == a[j];
      } else {
        assert ab[i] == b[i - |a|] && ab[j] == b[j - |a|];
      }
    }
  }

  /** Strings that branch apart after `p` are not prefixes of one another. */
  lemma SplitAt(x: Bits, y: Bits, p: Bits)
    requires IsPrefix(p + [false], x) && IsPrefix(p + [true], y)
    ensures !IsPrefix(x, y) && !IsPrefix(y, x)
  {
    assert x[|p|] == (p + [false])[|p|];
    assert y[|p|] == (p + [true])[|p|];
  }
}
