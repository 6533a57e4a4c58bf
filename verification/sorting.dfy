/**
  `sortHuffmanList` and `sortInputMap`: records are ordered longest code
  first, and among equal lengths by ascending character. The library sort
  is a stable merge sort; it is modelled here by a stable insertion sort,
  which yields the same list.
*/
module Sorting {
  import opened Types
  import opened Codes

  /** The comparator: negative when `one` goes first, positive when `two` does, zero on a tie. */
  function Compare(one: Huffman, two: Huffman): (r: int)
    ensures r == -1 || r == 0 || r == 1
    ensures r == -1 <==> Precedes(one, two) && !Precedes(two, one)
    ensures r == 1 <==> Precedes(two, one) && !Precedes(one, two)
    ensures r == 0 <==> one.length == two.length && one.character == two.character
  {
    if one.length < two.length then 1
    else if one.length > two.length then -1
    else if one.character < two.character then -1
    else if one.character > two.character then 1
    else 0
  }

  /** The order the sort establishes, stated without the comparator: longer first, then smaller character. */
  predicate Precedes(a: Huffman, b: Huffman) {
    a.length > b.length || (a.length == b.length && a.character <= b.character)
  }

  /** Every record precedes every later one. */
  predicate Sorted(s: seq<Huffman>) {
    forall i, j :: 0 <= i < j < |s| ==> Precedes(s[i], s[j])
  }

  /** The comparator is antisymmetric, as `Collections.sort` requires. */
  lemma CompareAntisymmetric(one: Huffman, two: Huffman)
    ensures Compare(one, two) == -Compare(two, one)
  {
  }

  /** Insert one record after every record that does not compare greater. */
  function Insert(x: Huffman, s: seq<Huffman>): (r: seq<Huffman>)
    requires Sorted(s)
    ensures multiset(r) == multiset(s) + multiset{x}
    ensures Sorted(r)
  {
    if |s| == 0 then [x]
    else if Compare(x, s[0]) < 0 then
      ConsSorted(x, s);
      [x] + s
    else
      TailSorted(s);
      var rest := Insert(x, s[1..]);
      assert s == [s[0]] + s[1..];
      assert forall z :: z in rest ==> Precedes(s[0], z) by {
        forall z | z in rest ensures Precedes(s[0], z) {
          assert z in multiset(rest);
          if z != x {
            assert z in s[1..];
          }
        }
      }
      ConsSorted(s[0], rest);
      [s[0]] + rest
  }

  lemma TailSorted(s: seq<Huffman>)
    requires Sorted(s) && |s| > 0
    ensures Sorted(s[1..])
  {
    forall i, j | 0 <= i < j < |s| - 1 ensures Precedes(s[1..][i], s[1..][j]) {
      assert s[1..][i] == s[i + 1] && s[1..][j] == s[j + 1];
    }
  }

  /** A record that precedes every record of a sorted list may go in front of it. */
  lemma ConsSorted(y: Huffman, t: seq<Huffman>)
    requires Sorted(t)
    requires forall z :: z in t ==> Precedes(y, z)
    ensures Sorted([y] + t)
  {
    var r := [y] + t;
    forall i, j | 0 <= i < j < |r| ensures Precedes(r[i], r[j]) {
      assert r[j] == t[j - 1];
      if i > 0 {
        assert r[i] == t[i - 1];
      }
    }
  }

  /**
    `sortHuffmanList`: a permutation of the list in which every record
    precedes the ones after it.
  */
  function SortHuffmanList(list: seq<Huffman>): (r: seq<Huffman>)
    ensures multiset(r) == multiset(list)
    ensures Sorted(r)
  {
    if |list| == 0 then []
    else
      var front := list[..|list| - 1];
      assert list == front + [list[|list| - 1]];
      Insert(list[|list| - 1], SortHuffmanList(front))
  }

  /** Inserting a record adds its weight to the Kraft sum. */
  lemma {:induction false} InsertKraft(x: Huffman, s: seq<Huffman>)
    requires Sorted(s)
    ensures KraftUnits(Insert(x, s)) == Weight(x.length) + KraftUnits(s)
  {
    if |s| > 0 && Compare(x, s[0]) >= 0 {
      TailSorted(s);
      InsertKraft(x, s[1..]);
      assert ([s[0]] + Insert(x, s[1..]))[1..] == Insert(x, s[1..]);
    } else if |s| > 0 {
      assert ([x] + s)[1..] == s;
    }
  }

  /** Sorting keeps the Kraft sum of the lengths. */
  lemma {:induction false} SortKraft(list: seq<Huffman>)
    ensures KraftUnits(SortHuffmanList(list)) == KraftUnits(list)
  {
    if |list| > 0 {
      var front := list[..|list| - 1];
      var last := list[|list| - 1];
      assert list == front + [last];
      SortKraft(front);
      InsertKraft(last, SortHuffmanList(front));
      KraftAppend(front, [last]);
      assert [last][1..] == [];
    }
  }

  /**
    A sorted list without repeated characters is determined by its
    elements: two such arrangements of the same records are equal. So the
    sort's output does not depend on the order of its input.
  */
  lemma {:induction false} SortedUnique(a: seq<Huffman>, b: seq<Huffman>)
    requires Sorted(a) && Sorted(b) && multiset(a) == multiset(b) && DistinctChars(a)
    ensures a == b
  {
    assert |b| == |multiset(b)| == |multiset(a)| == |a|;
    if |a| > 0 {
      SortedHeads(a, b);
      assert multiset(a[1..]) == multiset(b[1..]) by {
        assert a == [a[0]] + a[1..] && b == [b[0]] + b[1..];
        assert multiset(a[1..]) == multiset(a) - multiset{a[0]};
        assert multiset(b[1..]) == multiset(b) - multiset{b[0]};
      }
      TailSorted(a);
      TailSorted(b);
      TailDistinct(a);
      SortedUnique(a[1..], b[1..]);
      assert a == [a[0]] + a[1..] && b == [b[0]] + b[1..];
    }
  }

  /**
    The same for lists given by their members: sorted lists without
    repeated characters that hold the same records are equal.
  */
  lemma SortedUniqueMembers(a: seq<Huffman>, b: seq<Huffman>)
    requires Sorted(a) && Sorted(b) && DistinctChars(a) && DistinctChars(b)
    requires forall h :: h in a <==> h in b
    ensures a == b
  {
    assert NoDuplicates(a) && NoDuplicates(b);
    forall x ensures multiset(a)[x] == multiset(b)[x] {
      if x in a {
        MultiplicityOne(a, x);
        MultiplicityOne(b, x);
      }
    }
    assert multiset(a) == multiset(b);
    SortedUnique(a, b);
  }

  /** Sorted arrangements of the same records without repeated characters start alike. */
  lemma SortedHeads(a: seq<Huffman>, b: seq<Huffman>)
    requires Sorted(a) && Sorted(b) && multiset(a) == multiset(b) && DistinctChars(a)
    requires |a| > 0 && |b| > 0
    ensures a[0] == b[0]
  {
    assert a[0] in multiset(b) && b[0] in multiset(a);
    var i :| 0 <= i < |a| && a[i] == b[0];
    var j :| 0 <= j < |b| && b[j] == a[0];
    assert Precedes(a[0], a[i]) && Precedes(b[0], b[j]);
  }

  lemma TailDistinct(a: seq<Huffman>)
    requires DistinctChars(a) && |a| > 0
    ensures DistinctChars(a[1..])
  {
    forall p, q | 0 <= p < |a| - 1 && 0 <= q < |a| - 1 && p != q
      ensures a[1..][p].character != a[1..][q].character
    {
      assert a[1..][p] == a[p + 1] && a[1..][q] == a[q + 1];
    }
  }

  /** Characters are kept across a permutation, and so is their distinctness. */
  lemma PermutationDistinct(a: seq<Huffman>, b: seq<Huffman>)
    requires multiset(a) == multiset(b) && DistinctChars(a)
    ensures DistinctChars(b)
  {
    forall i, j | 0 <= i < |b| && 0 <= j < |b| && i != j
      ensures b[i].character != b[j].character
    {
      if b[i].character == b[j].character {
        assert b[i] in multiset(b) && b[j] in multiset(b);
        SameCharSameRecord(a, b[i], b[j]);
        MultiplicityTwo(b, i, j);
        assert NoDuplicates(a);
        MultiplicityOne(a, b[i]);
        assert false;
      }
    }
  }

  /** Two records of a list without repeated characters that share a character are one record. */
  lemma SameCharSameRecord(a: seq<Huffman>, x: Huffman, y: Huffman)
    requires DistinctChars(a) && x in a && y in a && x.character == y.character
    ensures x == y
  {
    var p :| 0 <= p < |a| && a[p] == x;
    var q :| 0 <= q < |a| && a[q] == y;
  }

  /** The records with their codes replaced by the placeholder, as the decoder sees them. */
  function Strip(list: seq<Huffman>): (r: seq<Huffman>)
    ensures |r| == |list|
    ensures forall i :: 0 <= i < |list| ==> r[i] == NewHuffman(list[i].character, list[i].length)
    ensures Sorted(list) ==> Sorted(r)
    ensures DistinctChars(list) ==> DistinctChars(r)
  {
    seq(|list|, i requires 0 <= i < |list| => NewHuffman(list[i].character, list[i].length))
  }

  /** The records `sortInputMap` builds from a map: one placeholder record per entry. */
  function Entries(m: map<Char, int>): (es: seq<Huffman>)
    ensures |es| == |KeysAscending(m)|
  {
    var ks := KeysAscending(m);
    seq(|ks|, i requires 0 <= i < |ks| => NewHuffman(ks[i], m[ks[i]]))
  }

  /** `sortInputMap`: the map's entries as placeholder records, sorted. */
  function SortInputMap(m: map<Char, int>): (r: seq<Huffman>)
    ensures Sorted(r)
  {
    SortHuffmanList(Entries(m))
  }

  /** The placeholder records of a map: one per entry, no character twice. */
  lemma EntriesOf(m: map<Char, int>)
    ensures |Entries(m)| == |m|
    ensures forall h :: h in Entries(m) <==> h.character in m && h == NewHuffman(h.character, m[h.character])
    ensures DistinctChars(Entries(m))
  {
    var es := Entries(m);
    var ks := KeysAscending(m);
    KeysAscendingCount(m);
    forall h: Huffman | h.character in m && h == NewHuffman(h.character, m[h.character]) ensures h in es {
      var i :| 0 <= i < |ks| && ks[i] == h.character;
      assert es[i] == h;
    }
  }

  /**
    The sorted records are exactly the map's entries: one per key, with the
    entry's value as length and the placeholder code, no character twice.
  */
  lemma SortInputMapEntries(m: map<Char, int>)
    ensures |SortInputMap(m)| == |m|
    ensures forall h :: h in SortInputMap(m) <==> h.character in m && h == NewHuffman(h.character, m[h.character])
    ensures DistinctChars(SortInputMap(m))
  {
    var es := Entries(m);
    var r := SortInputMap(m);
    EntriesOf(m);
    assert |r| == |multiset(r)| == |multiset(es)| == |es|;
    assert forall h :: h in r <==> h in multiset(es);
    PermutationDistinct(es, r);
  }
}
