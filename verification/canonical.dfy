/**
  `canonicalize`: canonical code assignment, longest codes first. A counter
  starts at 0; each record gets the counter in binary, padded with leading
  zeros to its length; then the counter is incremented and shifted right by
  the drop in length to the next record. On a list sorted by non-increasing
  length whose lengths satisfy the Kraft equality, the result is a
  prefix-free code with every code exactly as long as its record's length.
*/
module Canonical {
  import opened Types
  import opened Binary
  import opened Codes

  /**
    The divisor of the counter step: 2 to the drop in length. Java masks a
    shift count to its low five bits, which is the Euclidean remainder
    modulo 32.
  */
  function ShiftDivisor(length: int, nextLen: int): (d: nat)
    ensures d >= 1
    ensures length == nextLen ==> d == 1
  {
    Pow2((length - nextLen) % 32)
  }

  /**
    The counter for the next record: `(number + 1) >> (length - nextLen)`.
    A right shift of a non-negative value divides by the power of two,
    rounding down.
  */
  function NextNumber(number: nat, length: int, nextLen: int): (n: nat)
    ensures n * ShiftDivisor(length, nextLen) <= number + 1 < (n + 1) * ShiftDivisor(length, nextLen)
    ensures n <= number + 1
    ensures length == nextLen ==> n == number + 1
  {
    var d := ShiftDivisor(length, nextLen);
    DivFloor(number + 1, d);
    (number + 1) / d
  }

  /** Division of a natural number rounds down and never grows it. */
  lemma DivFloor(a: nat, d: nat)
    requires d >= 1
    ensures (a / d) * d <= a < (a / d + 1) * d
    ensures a / d <= a
    ensures d == 1 ==> a / d == a
  {
    var q := a / d;
    assert a == d * q + a % d && 0 <= a % d < d;
    MulSucc(q, d);
    MulMonotone(1, d, q);
  }

  /** The values the counter takes along the list, starting from `number`. */
  function Counters(list: seq<Huffman>, number: nat): (ns: seq<nat>)
    ensures |ns| == |list|
    ensures |list| > 0 ==> ns[0] == number
  {
    if |list| == 0 then []
    else if |list| == 1 then [number]
    else [number] + Counters(list[1..], NextNumber(number, list[0].length, list[1].length))
  }

  /**
    `canonicalize`: every record keeps its character and length and gets
    as its code the counter's binary string, padded to the record's length.
  */
  function Canonicalize(list: seq<Huffman>): (r: seq<Huffman>)
    ensures |r| == |list|
    ensures forall i :: 0 <= i < |list| ==>
      r[i].character == list[i].character && r[i].length == list[i].length
  {
    var ns := Counters(list, 0);
    seq(|list|, i requires 0 <= i < |list| => Huffman(list[i].character, CodeOf(ns[i], list[i].length), list[i].length))
  }

  /** Lengths do not increase along the list. */
  predicate NonIncreasing(list: seq<Huffman>) {
    forall i, j :: 0 <= i < j < |list| ==> list[i].length >= list[j].length
  }

  /** Every length lies in 1..31. */
  predicate PositiveLengths(list: seq<Huffman>) {
    forall i :: 0 <= i < |list| ==> 1 <= list[i].length <= MAX_LENGTH
  }

  /** The Kraft sum of lengths no longer than `l`, counted in units of 2^-l. */
  function KraftQuot(list: seq<Huffman>, l: nat): nat
    requires l <= MAX_LENGTH
    requires forall i :: 0 <= i < |list| ==> 0 <= list[i].length <= l
  {
    if |list| == 0 then 0 else Pow2(l - list[0].length) + KraftQuot(list[1..], l)
  }

  /** When no length exceeds `l`, the Kraft sum is a whole multiple of 2^-l. */
  lemma {:induction false} KraftMultiple(list: seq<Huffman>, l: nat)
    requires l <= MAX_LENGTH
    requires forall i :: 0 <= i < |list| ==> 0 <= list[i].length <= l
    ensures KraftUnits(list) == KraftQuot(list, l) * Pow2(MAX_LENGTH - l)
  {
    if |list| > 0 {
      var rest := list[1..];
      assert forall i :: 0 <= i < |rest| ==> rest[i] == list[i + 1];
      KraftMultiple(rest, l);
      var m := Pow2(MAX_LENGTH - l);
      var p := Pow2(l - list[0].length);
      Pow2Add(l - list[0].length, MAX_LENGTH - l);
      assert Weight(list[0].length) == p * m;
      Distrib(p, KraftQuot(rest, l), m);
    }
  }

  /** The counter fits its record's length when the record's interval lies inside the whole. */
  lemma NumberFits(number: nat, length: nat, used: nat)
    requires 1 <= length <= MAX_LENGTH
    requires number * Weight(length) == used
    requires used + Weight(length) <= Pow2(MAX_LENGTH)
    ensures number < Pow2(length)
  {
    var w := Weight(length);
    var p := Pow2(length);
    Pow2Add(length, MAX_LENGTH - length);
    assert p * w == Pow2(MAX_LENGTH);
    Distrib(number, 1, w);
    if number >= p {
      MulMonotone(p, number, w);
      assert false;
    }
  }

  lemma MulMonotone(a: nat, b: nat, c: nat)
    requires a <= b
    ensures a * c <= b * c
  {
  }

  lemma MulCancel(a: nat, b: nat, c: nat)
    requires c > 0 && a * c == b * c
    ensures a == b
  {
    if a < b {
      MulStrict(a, b, c);
    } else if b < a {
      MulStrict(b, a, c);
    }
  }

  lemma MulStrict(a: nat, b: nat, c: nat)
    requires a < b && c > 0
    ensures a * c < b * c
  {
    assert b * c == a * c + (b - a) * c;
  }

  lemma Distrib(a: int, b: int, c: int)
    ensures (a + b) * c == a * c + b * c
  {
  }

  lemma DivExact(k: nat, p: nat)
    requires p > 0
    ensures (k * p) / p == k
  {
    var q, rem := (k * p) / p, (k * p) % p;
    assert k * p == q * p + rem && 0 <= rem < p;
    if q < k {
      MulMonotone(q + 1, k, p);
      Distrib(q, 1, p);
      assert false;
    } else if q > k {
      MulStrict(k, q, p);
      assert false;
    }
  }

  /**
    One step of the counter keeps the invariant `number * 2^-length ==
    used`: with the Kraft equality, the space used so far is a multiple of
    the next record's weight, so the shift divides exactly.
  */
  lemma {:induction false} NextNumberStep(list: seq<Huffman>, number: nat, used: nat)
    requires |list| > 1 && NonIncreasing(list) && PositiveLengths(list)
    requires number * Weight(list[0].length) == used
    requires used + KraftUnits(list) == Pow2(MAX_LENGTH)
    ensures NextNumber(number, list[0].length, list[1].length) * Weight(list[1].length)
         == used + Weight(list[0].length)
  {
    var l0, l1 := list[0].length, list[1].length;
    var rest := list[1..];
    RestBounded(list);
    KraftMultiple(rest, l1);
    WeightShift(l0, l1);
    StepArith(number, used, Weight(l0), Weight(l1), Pow2(l0 - l1), KraftQuot(rest, l1), Pow2(l1));
  }

  /** After the first record of a sorted list, no length exceeds the second record's. */
  lemma RestBounded(list: seq<Huffman>)
    requires |list| > 1 && NonIncreasing(list) && PositiveLengths(list)
    ensures forall i :: 0 <= i < |list[1..]| ==> 0 <= list[1..][i].length <= list[1].length
    ensures KraftUnits(list) == Weight(list[0].length) + KraftUnits(list[1..])
  {
    var rest := list[1..];
    forall i | 0 <= i < |rest| ensures 0 <= rest[i].length <= list[1].length {
      assert rest[i] == list[i + 1];
    }
  }

  /**
    The weights of two lengths differ by the power of two of their
    difference, which is also the masked shift count; and a length's
    weight times its power of two is the whole.
  */
  lemma WeightShift(l0: int, l1: int)
    requires 1 <= l1 <= l0 <= MAX_LENGTH
    ensures Weight(l1) == Pow2(l0 - l1) * Weight(l0)
    ensures Pow2(MAX_LENGTH) == Pow2(l1) * Weight(l1)
    ensures forall number: nat :: NextNumber(number, l0, l1) == (number + 1) / Pow2(l0 - l1)
  {
    Pow2Add(l1, MAX_LENGTH - l1);
    Pow2Add(l0 - l1, MAX_LENGTH - l0);
    ShiftMask(l0 - l1);
  }

  lemma ShiftMask(d: nat)
    requires d < 32
    ensures d % 32 == d
  {
  }

  /** The arithmetic of one counter step, over plain numbers. */
  lemma StepArith(number: nat, used: nat, w0: nat, w1: nat, pd: nat, q: nat, p1: nat)
    requires w0 > 0 && pd > 0
    requires number * w0 == used && w1 == pd * w0
    requires used + w0 + q * w1 == p1 * w1
    ensures (number + 1) / pd * w1 == used + w0
  {
    assert w1 > 0;
    assert q <= p1 by {
      if q > p1 {
        MulStrict(p1, q, w1);
      }
    }
    var k: nat := p1 - q;
    Distrib(k, q, w1);
    assert k * w1 == used + w0;
    Distrib(number, 1, w0);
    MulAssoc(k, pd, w0);
    MulCancel(number + 1, k * pd, w0);
    DivExact(k, pd);
  }

  lemma MulAssoc(a: int, b: int, c: int)
    ensures a * (b * c) == (a * b) * c
  {
  }

  /**
    The invariant of the assignment: from a counter whose interval starts at
    `used`, every counter value fits its record's length, and scaled to the
    record's weight it is the Kraft sum of the records before it.
  */
  lemma {:induction false} CountersInvariant(list: seq<Huffman>, number: nat, used: nat)
    requires |list| > 0 && NonIncreasing(list) && PositiveLengths(list)
    requires number * Weight(list[0].length) == used
    requires used + KraftUnits(list) == Pow2(MAX_LENGTH)
    ensures CountersFit(Counters(list, number), list, used)
  {
    var ns := Counters(list, number);
    var l0 := list[0].length;
    NumberFits(number, l0, used);
    if |list| > 1 {
      var next := NextNumber(number, l0, list[1].length);
      TailPremises(list, number, used);
      CountersInvariant(list[1..], next, used + Weight(l0));
      CountersTail(list, number);
    }
    PrependCounter(list, ns, used);
  }

  /** After the first counter come the counters of the tail, from the next value on. */
  lemma CountersTail(list: seq<Huffman>, number: nat)
    requires |list| > 1
    ensures Counters(list, number)[1..] == Counters(list[1..], NextNumber(number, list[0].length, list[1].length))
  {
  }

  /** The premises of the invariant carry over from a list to its tail, one counter step on. */
  lemma TailPremises(list: seq<Huffman>, number: nat, used: nat)
    requires |list| > 1 && NonIncreasing(list) && PositiveLengths(list)
    requires number * Weight(list[0].length) == used
    requires used + KraftUnits(list) == Pow2(MAX_LENGTH)
    ensures NonIncreasing(list[1..]) && PositiveLengths(list[1..])
    ensures NextNumber(number, list[0].length, list[1].length) * Weight(list[1..][0].length) == used + Weight(list[0].length)
    ensures used + Weight(list[0].length) + KraftUnits(list[1..]) == Pow2(MAX_LENGTH)
  {
    RestBounded(list);
    NextNumberStep(list, number, used);
    TailOrdered(list);
  }

  /**
    A counter that fits the first record, in front of counters that fit the
    rest from one weight further on, gives counters that fit the whole list.
  */
  lemma PrependCounter(list: seq<Huffman>, ns: seq<nat>, used: nat)
    requires |list| > 0 && |ns| == |list|
    requires CounterAt(ns[0], list[0].length, used)
    requires |list| > 1 ==> CountersFit(ns[1..], list[1..], used + Weight(list[0].length))
    ensures CountersFit(ns, list, used)
  {
    forall i | 0 <= i < |list|
      ensures CounterAt(ns[i], list[i].length, used + KraftUnits(list[..i]))
    {
      if i == 0 {
        assert list[..0] == [];
      } else {
        assert ns[i] == ns[1..][i - 1];
        assert list[i] == list[1..][i - 1];
        KraftPrefixShift(list, i);
      }
    }
  }

  /** Counter values that fit their records, each interval starting after those of the records before. */
  predicate CountersFit(ns: seq<nat>, list: seq<Huffman>, used: nat) {
    |ns| == |list| &&
    forall i :: 0 <= i < |list| ==> CounterAt(ns[i], list[i].length, used + KraftUnits(list[..i]))
  }

  /** A counter value that fits the length, whose interval starts `used` units in. */
  predicate CounterAt(n: nat, length: int, used: nat) {
    1 <= length && n < Pow2(length) && n * Weight(length) == used
  }

  lemma TailOrdered(list: seq<Huffman>)
    requires |list| > 0 && NonIncreasing(list) && PositiveLengths(list)
    ensures NonIncreasing(list[1..]) && PositiveLengths(list[1..])
  {
    var tail := list[1..];
    forall i, j | 0 <= i < j < |tail| ensures tail[i].length >= tail[j].length {
      assert tail[i] == list[i + 1] && tail[j] == list[j + 1];
    }
    forall i | 0 <= i < |tail| ensures 1 <= tail[i].length <= MAX_LENGTH {
      assert tail[i] == list[i + 1];
    }
  }

  lemma KraftPrefixShift(list: seq<Huffman>, i: nat)
    requires 1 <= i <= |list|
    ensures KraftUnits(list[..i]) == Weight(list[0].length) + KraftUnits(list[1..][..i - 1])
  {
    assert list[..i][1..] == list[1..][..i - 1];
  }

  /** Records later in the list start their intervals at least one weight further on. */
  lemma {:induction false} KraftPrefixGrows(list: seq<Huffman>, i: nat, j: nat)
    requires i < j <= |list|
    ensures KraftUnits(list[..i]) + Weight(list[i].length) <= KraftUnits(list[..j])
    decreases j - i
  {
    if j == i + 1 {
      assert list[..j] == list[..i] + [list[i]];
      KraftAppend(list[..i], [list[i]]);
      assert [list[i]][1..] == [];
    } else {
      KraftPrefixGrows(list, i, j - 1);
      assert list[..j] == list[..j - 1] + [list[j - 1]];
      KraftAppend(list[..j - 1], [list[j - 1]]);
    }
  }

  /**
    If a longer code extends a shorter one, the longer code's interval lies
    inside the shorter one's.
  */
  lemma NestedIntervals(ci: nat, cj: nat, p: nat, wi: nat, wj: nat)
    requires wi > 0 && wj == p * wi
    requires cj * p <= ci < (cj + 1) * p
    ensures cj * wj <= ci * wi < cj * wj + wj
  {
    MulMonotone(cj * p, ci, wi);
    MulStrict(ci, (cj + 1) * p, wi);
    assert cj * wj == (cj * p) * wi;
    assert cj * wj + wj == ((cj + 1) * p) * wi;
  }

  /**
    The canonical code theorem: on a list with lengths in 1..31, sorted by
    non-increasing length and satisfying the Kraft equality, every code has
    exactly its record's length and no code is a prefix of another.
  */
  lemma CanonicalPrefixFree(list: seq<Huffman>)
    requires |list| > 0 && NonIncreasing(list) && PositiveLengths(list)
    requires KraftUnits(list) == Pow2(MAX_LENGTH)
    ensures forall i :: 0 <= i < |list| ==> |Canonicalize(list)[i].binary| == list[i].length
    ensures PrefixFree(Canonicalize(list))
  {
    var r := Canonicalize(list);
    CanonicalCodes(list);
    assert forall i :: 0 <= i < |list| ==> CodeAt(r[i].binary, list[i].length, KraftUnits(list[..i]));
    forall i, j | 0 <= i < |r| && 0 <= j < |r| && i != j
      ensures !IsPrefix(r[i].binary, r[j].binary)
    {
      if i < j {
        NoPrefixLater(list, i, j);
      } else {
        NoPrefixLater(list, j, i);
      }
    }
  }

  /**
    From counter 0: every code has its record's length, and its value
    scaled to its weight is the Kraft sum of the records before it.
  */
  lemma CanonicalCodes(list: seq<Huffman>)
    requires |list| > 0 && NonIncreasing(list) && PositiveLengths(list)
    requires KraftUnits(list) == Pow2(MAX_LENGTH)
    ensures forall k :: 0 <= k < |list| ==>
      CodeAt(Canonicalize(list)[k].binary, list[k].length, KraftUnits(list[..k]))
  {
    var r := Canonicalize(list);
    var ns := Counters(list, 0);
    CountersFromZero(list);
    forall k | 0 <= k < |list| ensures CodeAt(r[k].binary, list[k].length, KraftUnits(list[..k])) {
      CodeOfCounter(ns[k], list[k].length, KraftUnits(list[..k]));
    }
  }

  lemma CountersFromZero(list: seq<Huffman>)
    requires |list| > 0 && NonIncreasing(list) && PositiveLengths(list)
    requires KraftUnits(list) == Pow2(MAX_LENGTH)
    ensures forall k :: 0 <= k < |list| ==> CounterAt(Counters(list, 0)[k], list[k].length, KraftUnits(list[..k]))
  {
    assert 0 * Weight(list[0].length) == 0;
    CountersInvariant(list, 0, 0);
  }

  /** A counter value that fits its length is written as a code of that exact length and value. */
  lemma CodeOfCounter(n: nat, length: int, used: nat)
    requires CounterAt(n, length, used)
    ensures CodeAt(CodeOf(n, length), length, used)
  {
    CodeOfExact(n, length);
  }

  /** A code of exactly the given length whose interval starts `used` units in. */
  predicate CodeAt(b: Bits, length: int, used: nat) {
    |b| == length && Value(b) * Weight(length) == used
  }

  /** The codes of an earlier and a later record are not prefixes of one another. */
  lemma NoPrefixLater(list: seq<Huffman>, i: nat, j: nat)
    requires i < j < |list| && NonIncreasing(list) && PositiveLengths(list)
    requires KraftUnits(list) == Pow2(MAX_LENGTH)
    requires forall k :: 0 <= k < |list| ==>
      CodeAt(Canonicalize(list)[k].binary, list[k].length, KraftUnits(list[..k]))
    ensures !IsPrefix(Canonicalize(list)[i].binary, Canonicalize(list)[j].binary)
    ensures !IsPrefix(Canonicalize(list)[j].binary, Canonicalize(list)[i].binary)
  {
    var r := Canonicalize(list);
    KraftPrefixGrows(list, i, j);
    NoPrefixPair(r[i].binary, r[j].binary, list[i].length, list[j].length,
                 KraftUnits(list[..i]), KraftUnits(list[..j]));
  }

  /**
    Codes whose intervals do not overlap are not prefixes of one another:
    the earlier, longer code's interval ends before the later one starts.
  */
  lemma NoPrefixPair(bi: Bits, bj: Bits, li: nat, lj: nat, ui: nat, uj: nat)
    requires 1 <= lj <= li <= MAX_LENGTH && |bi| == li && |bj| == lj
    requires Value(bi) * Weight(li) == ui && Value(bj) * Weight(lj) == uj
    requires ui + Weight(li) <= uj
    ensures !IsPrefix(bi, bj) && !IsPrefix(bj, bi)
  {
    if IsPrefix(bj, bi) {
      PrefixBounds(bj, bi);
      Pow2Add(li - lj, MAX_LENGTH - li);
      assert Weight(lj) == Pow2(li - lj) * Weight(li);
      NestedIntervals(Value(bi), Value(bj), Pow2(li - lj), Weight(li), Weight(lj));
      assert false;
    }
  }

  /** A lone record of length 0 gets the code "0": the counter's binary form, unpadded. */
  lemma SingleRecord(h: Huffman)
    requires h.length == 0
    ensures Canonicalize([h]) == [Huffman(h.character, [false], 0)]
  {
    assert ToBinary(0) == [false];
    assert CodeOf(0, 0) == [false];
    assert Counters([h], 0) == [0];
  }

  /** The counter reads only the lengths. */
  lemma {:induction false} CountersOnlyLengths(a: seq<Huffman>, b: seq<Huffman>, number: nat)
    requires |a| == |b|
    requires forall i :: 0 <= i < |a| ==> a[i].length == b[i].length
    ensures Counters(a, number) == Counters(b, number)
  {
    if |a| > 1 {
      CountersOnlyLengths(a[1..], b[1..], NextNumber(number, a[0].length, a[1].length));
    }
  }

  /**
    The assignment reads only characters and lengths, never the codes it
    replaces: lists that agree on those get the same result.
  */
  lemma CanonicalizeIgnoresCodes(a: seq<Huffman>, b: seq<Huffman>)
    requires |a| == |b|
    requires forall i :: 0 <= i < |a| ==> a[i].character == b[i].character && a[i].length == b[i].length
    ensures Canonicalize(a) == Canonicalize(b)
  {
    CountersOnlyLengths(a, b, 0);
  }

  /**
    Among records all of length 2, the one at position i gets the two bits
    that spell i: four such records get 00, 01, 10 and 11 in list order.
  */
  lemma TwoBitCodeAt(list: seq<Huffman>, i: nat, x: bool, y: bool)
    requires i < |list| && forall j :: 0 <= j < |list| ==> list[j].length == 2
    requires i == (if x then 2 else 0) + (if y then 1 else 0)
    ensures Canonicalize(list)[i].binary == [x, y]
  {
    EqualLengthCode(list, i);
    TwoBitCode(i, x, y);
  }

  /** Records of one and the same length get the binary forms of their positions. */
  lemma EqualLengthCode(list: seq<Huffman>, i: nat)
    requires i < |list| && forall j :: 0 <= j < |list| ==> list[j].length == list[0].length
    ensures Canonicalize(list)[i].binary == CodeOf(i, list[i].length)
  {
    EqualLengthCounters(list, 0);
  }

  /** Records of one and the same length get consecutive counter values. */
  lemma {:induction false} EqualLengthCounters(list: seq<Huffman>, number: nat)
    requires forall i :: 0 <= i < |list| ==> list[i].length == list[0].length
    ensures forall i :: 0 <= i < |list| ==> Counters(list, number)[i] == number + i
    decreases |list|
  {
    if |list| > 1 {
      var tail := list[1..];
      assert tail[0] == list[1];
      assert Pow2(0) == 1;
      assert NextNumber(number, list[0].length, list[1].length) == number + 1;
      EqualLengthCounters(tail, number + 1);
      assert Counters(list, number) == [number] + Counters(tail, number + 1);
    }
  }

  /** The two-bit code of the number two bits spell is those bits. */
  lemma TwoBitCode(n: nat, x: bool, y: bool)
    requires n == (if x then 2 else 0) + (if y then 1 else 0)
    ensures CodeOf(n, 2) == [x, y]
  {
    TwoBitValue(x, y);
    ExactCode(n, [x, y]);
  }

  lemma TwoBitValue(x: bool, y: bool)
    ensures Value([x, y]) == (if x then 2 else 0) + (if y then 1 else 0)
  {
    assert [x, y][..1] == [x];
    assert [x][..0] == [];
  }

  /** The code of a number that fits a width is the bit string of that width with that value. */
  lemma ExactCode(number: nat, b: Bits)
    requires 1 <= |b| && Value(b) == number
    ensures CodeOf(number, |b|) == b
  {
    CodeOfExact(number, |b|);
    ValueInjective(CodeOf(number, |b|), b);
  }
}
