/**
  Bit strings and the number conversions the codec performs on them:
  `Integer.toBinaryString`, `Integer.parseInt(s, 2)`, `padRight`, and the
  eight-bit chunking of bytes on both sides of the file format.
*/
module Binary {
  import opened Types

  function Pow2(n: nat): (p: nat)
    ensures p >= 1
  {
    if n == 0 then 1 else 2 * Pow2(n - 1)
  }

  lemma {:induction false} Pow2Add(a: nat, b: nat)
    ensures Pow2(a + b) == Pow2(a) * Pow2(b)
    decreases a
  {
    if a > 0 {
      Pow2Add(a - 1, b);
      assert Pow2(a + b) == 2 * Pow2(a - 1 + b);
    }
  }

  lemma {:induction false} Pow2Monotone(a: nat, b: nat)
    requires a <= b
    ensures Pow2(a) <= Pow2(b)
    decreases b
  {
    if a < b {
      Pow2Monotone(a, b - 1);
    }
  }

  /** A zero bit string of the given length. */
  function Zeros(n: nat): (z: Bits)
    ensures |z| == n
    ensures forall i :: 0 <= i < n ==> !z[i]
  {
    seq(n, i => false)
  }

  /** The number a bit string denotes, most significant bit first. */
  function Value(b: Bits): (v: nat)
    ensures v < Pow2(|b|)
    decreases |b|
  {
    if |b| == 0 then 0 else 2 * Value(b[..|b| - 1]) + (if b[|b| - 1] then 1 else 0)
  }

  /** Appending bits shifts the value of the front part left. */
  lemma {:induction false} ValueAppend(a: Bits, t: Bits)
    ensures Value(a + t) == Value(a) * Pow2(|t|) + Value(t)
    decreases |t|
  {
    if |t| == 0 {
      assert a + t == a;
    } else {
      var n := |t| - 1;
      var t' := t[..n];
      var bit := if t[n] then 1 else 0;
      var at := a + t;
      assert at[..|at| - 1] == a + t';
      assert at[|at| - 1] == t[n];
      ValueAppend(a, t');
      var va, p := Value(a), Pow2(n);
      calc {
        Value(at);
        2 * Value(a + t') + bit;
        2 * (va * p + Value(t')) + bit;
        { DoubleFactor(va, p); }
        va * (2 * p) + (2 * Value(t') + bit);
        va * Pow2(|t|) + Value(t);
      }
    }
  }

  lemma DoubleFactor(x: int, y: int)
    ensures 2 * (x * y) == x * (2 * y)
  {
  }

  /** Leading zeros do not change the value. */
  lemma ValueZeros(z: Bits, s: Bits)
    requires forall i :: 0 <= i < |z| ==> !z[i]
    ensures Value(z + s) == Value(s)
  {
    ValueAppend(z, s);
    ZerosValue(z);
  }

  lemma {:induction false} ZerosValue(z: Bits)
    requires forall i :: 0 <= i < |z| ==> !z[i]
    ensures Value(z) == 0
    decreases |z|
  {
    if |z| > 0 {
      ZerosValue(z[..|z| - 1]);
    }
  }

  /** Two bit strings of one length and one value are the same string. */
  lemma {:induction false} ValueInjective(a: Bits, b: Bits)
    requires |a| == |b| && Value(a) == Value(b)
    ensures a == b
    decreases |a|
  {
    if |a| > 0 {
      var n := |a| - 1;
      assert Value(a) == 2 * Value(a[..n]) + (if a[n] then 1 else 0);
      assert Value(b) == 2 * Value(b[..n]) + (if b[n] then 1 else 0);
      assert a[n] == b[n];
      ValueInjective(a[..n], b[..n]);
      assert a == a[..n] + [a[n]];
      assert b == b[..n] + [b[n]];
    }
  }

  /**
    `Integer.toBinaryString` of a non-negative number: the shortest binary
    representation, which is "0" for zero and otherwise starts with '1'.
  */
  function ToBinary(n: nat): (r: Bits)
    ensures Value(r) == n
    ensures |r| >= 1
    ensures |r| == 1 || (r[0] && Pow2(|r| - 1) <= n)
    decreases n
  {
    if n < 2 then [n == 1]
    else
      var high := ToBinary(n / 2);
      ValueAppend(high, [n % 2 == 1]);
      high + [n % 2 == 1]
  }

  /** A number below 2^length has a binary representation of at most that length. */
  lemma {:induction false} ToBinaryFits(n: nat, length: nat)
    requires 1 <= length && n < Pow2(length)
    ensures |ToBinary(n)| <= length
    decreases n
  {
    if n >= 2 {
      assert length >= 2;
      ToBinaryFits(n / 2, length - 1);
    }
  }

  /**
    `padRight`: prepend '0' until the string is `length` long
    (despite its name it pads on the left); a string that is already long
    enough comes back unchanged.
  */
  function PadRight(toPad: Bits, length: int): (r: Bits)
    ensures |r| == if |toPad| >= length then |toPad| else length
    ensures r[|r| - |toPad|..] == toPad
    ensures forall i :: 0 <= i < |r| - |toPad| ==> !r[i]
    ensures |toPad| >= length ==> r == toPad
    ensures Value(r) == Value(toPad)
    decreases length - |toPad|
  {
    if |toPad| >= length then toPad
    else
      var r := PadRight([false] + toPad, length);
      PadStep(toPad, r);
      r
  }

  /** One more leading '0' keeps the padded string's shape and value. */
  lemma PadStep(toPad: Bits, r: Bits)
    requires |r| > |toPad| && r[|r| - |toPad| - 1..] == [false] + toPad
    requires forall i :: 0 <= i < |r| - |toPad| - 1 ==> !r[i]
    requires Value(r) == Value([false] + toPad)
    ensures r[|r| - |toPad|..] == toPad
    ensures forall i :: 0 <= i < |r| - |toPad| ==> !r[i]
    ensures Value(r) == Value(toPad)
  {
    var k := |r| - |toPad| - 1;
    assert r[k] == ([false] + toPad)[0];
    assert r[k + 1..] == r[k..][1..];
    ValueZeros([false], toPad);
  }

  /** The code `number` gets at width `length`: its binary string padded to that width. */
  function CodeOf(number: nat, length: int): (r: Bits)
    ensures Value(r) == number
    ensures |r| == if |ToBinary(number)| >= length then |ToBinary(number)| else length
  {
    PadRight(ToBinary(number), length)
  }

  /** A number that fits its width is written with exactly that many bits. */
  lemma CodeOfExact(number: nat, length: nat)
    requires 1 <= length && number < Pow2(length)
    ensures |CodeOf(number, length)| == length
    ensures Value(CodeOf(number, length)) == number
  {
    ToBinaryFits(number, length);
  }

  predicate IsPrefix(a: Bits, b: Bits) {
    |a| <= |b| && b[..|a|] == a
  }

  /** A prefix's value, shifted to the longer width, brackets the longer string's value. */
  lemma PrefixBounds(a: Bits, b: Bits)
    requires IsPrefix(a, b)
    ensures Value(a) * Pow2(|b| - |a|) <= Value(b) < (Value(a) + 1) * Pow2(|b| - |a|)
  {
    var t := b[|a|..];
    assert b == a + t;
    ValueAppend(a, t);
    var va, p := Value(a), Pow2(|t|);
    MulSucc(va, p);
  }

  lemma MulSucc(x: int, y: int)
    ensures (x + 1) * y == x * y + y
  {
  }

  /** Decode's conversion of one payload byte: exactly eight bits, most significant first. */
  function ByteBits(b: Byte): (r: Bits)
    ensures |r| == 8 && Value(r) == b
  {
    CodeOfExact(b, 8);
    PadRight(ToBinary(b), 8)
  }

  /** `Integer.parseInt(s, 2)` of an eight-character chunk, as a byte. */
  function ParseByte(bits: Bits): (b: Byte)
    requires |bits| == 8
    ensures ByteBits(b) == bits
  {
    var v := Value(bits);
    assert Pow2(8) == 0x100;
    ValueInjective(ByteBits(v), bits);
    v
  }

  /** The concatenation of a list of bit strings. */
  function Flatten(chunks: seq<Bits>): (r: Bits)
    ensures |chunks| == 0 ==> r == []
  {
    if |chunks| == 0 then [] else Flatten(chunks[..|chunks| - 1]) + chunks[|chunks| - 1]
  }

  lemma {:induction false} FlattenAppend(a: seq<Bits>, b: seq<Bits>)
    ensures Flatten(a + b) == Flatten(a) + Flatten(b)
    decreases |b|
  {
    if |b| == 0 {
      assert a + b == a;
    } else {
      var b' := b[..|b| - 1];
      assert (a + b)[..|a + b| - 1] == a + b';
      FlattenAppend(a, b');
    }
  }

  /** A bit string whose length is a multiple of eight, cut into bytes in order. */
  function Pack(bits: Bits): (r: seq<Byte>)
    requires |bits| % 8 == 0
    ensures |r| * 8 == |bits|
    decreases |bits|
  {
    if |bits| == 0 then [] else [ParseByte(bits[..8])] + Pack(bits[8..])
  }

  /** Every byte becomes its eight-bit string, in file order. */
  function Unpack(bytes: seq<Byte>): (r: seq<Bits>)
    ensures |r| == |bytes|
    ensures forall i :: 0 <= i < |bytes| ==> r[i] == ByteBits(bytes[i])
  {
    seq(|bytes|, i requires 0 <= i < |bytes| => ByteBits(bytes[i]))
  }

  lemma FlattenCons(head: Bits, tail: seq<Bits>)
    ensures Flatten([head] + tail) == head + Flatten(tail)
  {
    FlattenAppend([head], tail);
    assert [head][..0] == [];
  }

  lemma UnpackCons(b: Byte, bytes: seq<Byte>)
    ensures Unpack([b] + bytes) == [ByteBits(b)] + Unpack(bytes)
  {
  }

  /** Unpacking the packed bytes gives back the bit string. */
  lemma {:induction false} UnpackPack(bits: Bits)
    requires |bits| % 8 == 0
    ensures Flatten(Unpack(Pack(bits))) == bits
    decreases |bits|
  {
    if |bits| > 0 {
      assert |bits| >= 8 && (|bits| - 8) % 8 == 0;
      var head, rest := bits[..8], bits[8..];
      var tail := Unpack(Pack(rest));
      UnpackPack(rest);
      var b := ParseByte(head);
      assert Pack(bits) == [b] + Pack(rest);
      UnpackCons(b, Pack(rest));
      FlattenCons(head, tail);
      assert bits == head + rest;
    }
  }

  /** Packing two whole-byte bit strings one after the other packs each in turn. */
  lemma {:induction false} PackAppend(a: Bits, b: Bits)
    requires |a| % 8 == 0 && |b| % 8 == 0
    ensures Pack(a + b) == Pack(a) + Pack(b)
    decreases |a|
  {
    if |a| == 0 {
      assert a + b == b;
    } else {
      assert |a| >= 8 && (|a| - 8) % 8 == 0;
      assert (a + b)[..8] == a[..8];
      assert (a + b)[8..] == a[8..] + b;
      PackAppend(a[8..], b);
    }
  }

  /** Eight bits pack into the one byte they spell. */
  lemma PackByte(bits: Bits)
    requires |bits| == 8
    ensures Pack(bits) == [ParseByte(bits)]
  {
    assert bits[..8] == bits;
    assert |bits[8..]| == 0;
  }

  lemma UnpackAppend(a: seq<Byte>, b: seq<Byte>)
    ensures Unpack(a + b) == Unpack(a) + Unpack(b)
  {
    var u, v := Unpack(a + b), Unpack(a) + Unpack(b);
    assert |u| == |v|;
    forall i | 0 <= i < |u| ensures u[i] == v[i] {
      if i < |a| {
        assert (a + b)[i] == a[i];
      } else {
        assert (a + b)[i] == b[i - |a|];
      }
    }
  }
}
