/**
  Shared vocabulary of the codec: bytes, Java characters, bit strings, the
  failure-carrying wrappers, and the `Huffman` record (character, binary code,
  code length) that every stage of the pipeline passes along.
*/
module Types {

  /** A byte as read from or written to a stream. */
  type Byte = b: int | 0 <= b < 0x100

  /** A Java `char`: an unsigned 16-bit code unit. */
  type Char = c: int | 0 <= c < 0x1_0000

  /** A bit string, most significant bit first; `false` is the character '0'. */
  type Bits = seq<bool>

  /** The end-of-stream symbol, counted once in every frequency map. */
  const SENTINEL: Char := 0x00

  /** The character that marks an interior tree node. */
  const INTERIOR: Char := 0x01

  datatype Option<+T> = None | Some(value: T)

  datatype Result<+R, +E> = Success(value: R) | Failure(error: E)

  /**
    The record of one symbol: its character, its code, and its code length.
    The code is only meaningful after canonical assignment.
  */
  datatype Huffman = Huffman(character: Char, binary: Bits, length: int)

  /** The `Huffman(char, int)` constructor: the code holds the placeholder "0". */
  function NewHuffman(character: Char, length: int): (h: Huffman)
    ensures h.character == character && h.length == length
    ensures h.binary == [false]
  {
    Huffman(character, [false], length)
  }

  /** What `OutputStream.write(int)` keeps of its argument: the low eight bits. */
  function Low8(x: int): (b: Byte)
    ensures 0 <= x < 0x100 ==> b == x
    ensures (x - b) % 0x100 == 0
  {
    x % 0x100
  }

  /** The characters of a record list, in list order. */
  function CharsOf(list: seq<Huffman>): (cs: seq<Char>)
    ensures |cs| == |list|
    ensures forall i :: 0 <= i < |list| ==> cs[i] == list[i].character
  {
    seq(|list|, i requires 0 <= i < |list| => list[i].character)
  }

  /** No character occurs twice in the list. */
  predicate DistinctChars(list: seq<Huffman>) {
    forall i, j :: 0 <= i < |list| && 0 <= j < |list| && i != j ==>
      list[i].character != list[j].character
  }

  /** No element occurs twice in the sequence. */
  predicate NoDuplicates<T(==)>(s: seq<T>) {
    forall i, j :: 0 <= i < |s| && 0 <= j < |s| && i != j ==> s[i] != s[j]
  }

  /** An element at two positions occurs at least twice. */
  lemma MultiplicityTwo<T>(b: seq<T>, i: nat, j: nat)
    requires i < |b| && j < |b| && i != j && b[i] == b[j]
    ensures multiset(b)[b[i]] >= 2
  {
    var lo, hi := if i < j then i else j, if i < j then j else i;
    assert b == b[..hi] + [b[hi]] + b[hi + 1..];
    assert b[lo] in b[..hi];
  }

  /** In a sequence without duplicates every element occurs once. */
  lemma MultiplicityOne<T>(a: seq<T>, x: T)
    requires NoDuplicates(a) && x in a
    ensures multiset(a)[x] == 1
  {
    var p :| 0 <= p < |a| && a[p] == x;
    assert a == a[..p] + [a[p]] + a[p + 1..];
    forall k | 0 <= k < p ensures a[..p][k] != x {
      assert a[..p][k] == a[k];
    }
    var tail := a[p + 1..];
    forall k | 0 <= k < |tail| ensures tail[k] != x {
      assert tail[k] == a[p + 1 + k];
    }
    assert x !in a[..p];
    assert x !in a[p + 1..];
  }

  /** A permutation of a sequence without duplicates has none either. */
  lemma PermutationNoDuplicates<T>(a: seq<T>, b: seq<T>)
    requires multiset(a) == multiset(b) && NoDuplicates(b)
    ensures NoDuplicates(a)
  {
    forall i, j | 0 <= i < |a| && 0 <= j < |a| && i != j
      ensures a[i] != a[j]
    {
      if a[i] == a[j] {
        MultiplicityTwo(a, i, j);
        assert a[i] in multiset(b);
        MultiplicityOne(b, a[i]);
        assert false;
      }
    }
  }

  /**
    The keys of a character-keyed map in ascending order, from `from` on.
    It stands in for the iteration order of a Java `HashMap`. Lists built
    from a map for `canonicalize` are sorted afterwards; the leaves put into
    the builder's priority queue are not, and there the order is absorbed
    by extraction picking any least node.
  */
  function KeysFrom<V>(m: map<Char, V>, from: nat): (ks: seq<Char>)
    ensures forall i :: 0 <= i < |ks| ==> ks[i] in m && from <= ks[i]
    ensures forall i, j :: 0 <= i < j < |ks| ==> ks[i] < ks[j]
    ensures forall c :: c in m && from <= c ==> c in ks
    decreases 0x1_0000 - from
  {
    if from >= 0x1_0000 then []
    else if from as Char in m then [from as Char] + KeysFrom(m, from + 1)
    else KeysFrom(m, from + 1)
  }

  /** All keys of a map, ascending. */
  function KeysAscending<V>(m: map<Char, V>): (ks: seq<Char>)
    ensures forall i :: 0 <= i < |ks| ==> ks[i] in m
    ensures forall i, j :: 0 <= i < j < |ks| ==> ks[i] < ks[j]
    ensures forall c :: c in m ==> c in ks
  {
    KeysFrom(m, 0)
  }

  /** A map has exactly as many entries as its ascending key sequence. */
  lemma {:induction false} KeysAscendingCount<V>(m: map<Char, V>)
    ensures |KeysAscending(m)| == |m|
  {
    var ks := KeysAscending(m);
    assert (set c: Char | c in ks) == m.Keys;
    IncreasingCard(ks);
  }

  /** A strictly increasing sequence has as many elements as its set. */
  lemma {:induction false} IncreasingCard(s: seq<Char>)
    requires forall i, j :: 0 <= i < j < |s| ==> s[i] < s[j]
    ensures |set c: Char | c in s| == |s|
  {
    if |s| > 0 {
      var tail := s[1..];
      IncreasingCard(tail);
      var rest := set c: Char | c in tail;
      assert (set c: Char | c in s) == rest + {s[0]};
      assert s[0] !in rest;
      assert |rest + {s[0]}| == |rest| + 1;
    } else {
      assert (set c: Char | c in s) == {};
    }
  }

  /** The sum of a map's values over the keys from `from` on. */
  function TotalFrom(m: map<Char, int>, from: nat): int
    decreases 0x1_0000 - from
  {
    if from >= 0x1_0000 then 0
    else (if from as Char in m then m[from as Char] else 0) + TotalFrom(m, from + 1)
  }

  /** The sum of all of a map's values. */
  function MapTotal(m: map<Char, int>): int {
    TotalFrom(m, 0)
  }

  /** Setting one entry changes the total by the difference of the values. */
  lemma MapTotalUpdate(m: map<Char, int>, c: Char, v: int)
    ensures MapTotal(m[c := v]) == MapTotal(m) - (if c in m then m[c] else 0) + v
  {
    TotalFromUpdate(m, c, v, 0);
  }

  lemma {:induction false} TotalFromUpdate(m: map<Char, int>, c: Char, v: int, from: nat)
    ensures TotalFrom(m[c := v], from)
         == TotalFrom(m, from) + (if from <= c then v - (if c in m then m[c] else 0) else 0)
    decreases 0x1_0000 - from
  {
    if from < 0x1_0000 {
      TotalFromUpdate(m, c, v, from + 1);
    }
  }

  /** The sum of a map's values over a sequence of its keys. */
  function SumOver(m: map<Char, int>, ks: seq<Char>): int
    requires forall i :: 0 <= i < |ks| ==> ks[i] in m
  {
    if |ks| == 0 then 0 else m[ks[0]] + SumOver(m, ks[1..])
  }

  /** Summing over the ascending key sequence gives the map's total. */
  lemma {:induction false} SumOverKeys(m: map<Char, int>, from: nat)
    ensures SumOver(m, KeysFrom(m, from)) == TotalFrom(m, from)
    decreases 0x1_0000 - from
  {
    if from < 0x1_0000 {
      SumOverKeys(m, from + 1);
      var rest := KeysFrom(m, from + 1);
      if from as Char in m {
        assert KeysFrom(m, from) == [from as Char] + rest;
        assert KeysFrom(m, from)[1..] == rest;
      }
    }
  }
}
