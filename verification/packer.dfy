/**
  `writeEncodedFile`: the encoded file. One byte for the number of records,
  then a character byte and a length byte per record, then the payload:
  the codes of the input characters, then the sentinel's code, padded with
  '0' bits to whole bytes. Every number goes through `Integer.parseInt` of
  a binary string and `OutputStream.write`, which keeps its low eight bits.
*/
module Packer {
  import opened Types
  import opened Binary
  import opened Lookup

  /**
    Why the encoder stops with an exception. A character without a code
    puts the text "null" into the bit string, and a negative length
    becomes a 32-digit binary string; `Integer.parseInt` rejects both.
  */
  datatype EncodeError = MissingCode(character: Char) | NegativeLength(character: Char)

  /** The character and length bytes of the records, in list order. */
  function HeaderPairs(list: seq<Huffman>): (r: Result<seq<Byte>, EncodeError>)
    ensures r.Success? <==> forall i :: 0 <= i < |list| ==> list[i].length >= 0
    ensures r.Success? ==> |r.value| == 2 * |list|
    ensures r.Success? ==> forall i :: 0 <= i < |list| ==>
      r.value[2 * i] == Low8(list[i].character) && r.value[2 * i + 1] == Low8(list[i].length)
  {
    if |list| == 0 then Success([])
    else
      var front := list[..|list| - 1];
      var last := list[|list| - 1];
      assert forall i :: 0 <= i < |front| ==> front[i] == list[i];
      match HeaderPairs(front)
      case Failure(e) => Failure(e)
      case Success(h) =>
        if last.length < 0 then Failure(NegativeLength(last.character))
        else Success(h + [Low8(last.character), Low8(last.length)])
  }

  /** The concatenated codes of the input, or the first character that has none. */
  function CodeStream(enc: map<Char, Bits>, input: seq<Char>): (r: Result<Bits, EncodeError>)
    ensures r.Success? <==> forall i :: 0 <= i < |input| ==> input[i] in enc
    ensures r.Failure? ==> r.error.MissingCode? && r.error.character in input && r.error.character !in enc
  {
    if |input| == 0 then Success([])
    else
      var front := input[..|input| - 1];
      var last := input[|input| - 1];
      assert forall i :: 0 <= i < |front| ==> front[i] == input[i];
      match CodeStream(enc, front)
      case Failure(e) => assert e.character in input; Failure(e)
      case Success(bits) =>
        if last !in enc then Failure(MissingCode(last)) else Success(bits + enc[last])
  }

  /** The number of '0' bits that fill a bit string of length n to whole bytes. */
  function PadCount(n: nat): (k: nat)
    ensures k < 8 && (n + k) % 8 == 0
  {
    (8 - n % 8) % 8
  }

  /** A bit string filled with '0' bits to whole bytes. */
  function Frame(bits: Bits): (r: Bits)
    ensures |r| % 8 == 0 && |bits| <= |r| < |bits| + 8
    ensures r[..|bits|] == bits
  {
    bits + Zeros(PadCount(|bits|))
  }

  /**
    The whole encoded file, as the writer is meant to produce it: the
    record count's low byte, the header pairs, then the payload.
  */
  function EncodedFile(list: seq<Huffman>, input: seq<Char>): (r: Result<seq<Byte>, EncodeError>)
    ensures r.Success? ==> HeaderPairs(list).Success? && |r.value| >= 1 + 2 * |list|
    ensures r.Success? ==> r.value[0] == Low8(|list|) && r.value[1..1 + 2 * |list|] == HeaderPairs(list).value
  {
    var enc := LookupMapEncodings(list);
    match HeaderPairs(list)
    case Failure(e) => Failure(e)
    case Success(pairs) =>
      match CodeStream(enc, input)
      case Failure(e) => Failure(e)
      case Success(bits) =>
        if SENTINEL !in enc then Failure(MissingCode(SENTINEL))
        else Success([Low8(|list|)] + pairs + Pack(Frame(bits + enc[SENTINEL])))
  }

  /**
    The encoding succeeds exactly when no length is negative, every input
    character has a code, and so does the sentinel; otherwise the writer
    stops with the first error it meets.
  */
  lemma EncodedFileSucceeds(list: seq<Huffman>, input: seq<Char>)
    ensures EncodedFile(list, input).Success? <==>
      && (forall i :: 0 <= i < |list| ==> list[i].length >= 0)
      && (forall i :: 0 <= i < |input| ==> input[i] in LookupMapEncodings(list))
      && SENTINEL in LookupMapEncodings(list)
  {
    var enc := LookupMapEncodings(list);
    var h := HeaderPairs(list);
    var c := CodeStream(enc, input);
    assert h.Success? <==> forall i :: 0 <= i < |list| ==> list[i].length >= 0;
    assert c.Success? <==> forall i :: 0 <= i < |input| ==> input[i] in enc;
  }

  /**
    The layout of a successful encoding: the count byte, the record pairs,
    then bytes that unpack to the input's codes, the sentinel's code and
    fewer than eight '0' bits.
  */
  lemma EncodedFileLayout(list: seq<Huffman>, input: seq<Char>)
    requires EncodedFile(list, input).Success?
    ensures var file := EncodedFile(list, input).value;
      var enc := LookupMapEncodings(list);
      |file| >= 1 + 2 * |list| &&
      file[0] == Low8(|list|) &&
      (forall i :: 0 <= i < |list| ==>
        file[1 + 2 * i] == Low8(list[i].character) && file[2 + 2 * i] == Low8(list[i].length)) &&
      SENTINEL in enc &&
      Flatten(Unpack(file[1 + 2 * |list|..])) == Frame(CodeStream(enc, input).value + enc[SENTINEL])
  {
    var enc := LookupMapEncodings(list);
    var pairs := HeaderPairs(list).value;
    var bits := CodeStream(enc, input).value;
    var file := EncodedFile(list, input).value;
    var payload := Pack(Frame(bits + enc[SENTINEL]));
    assert file == [Low8(|list|)] + pairs + payload;
    assert file[1 + 2 * |list|..] == payload;
    UnpackPack(Frame(bits + enc[SENTINEL]));
  }

  /**
    `writeEncodedFile`: the header, then the payload. The bytes written are
    those of the encoded file.
  */
  method WriteEncodedFile(list: seq<Huffman>, input: seq<Char>) returns (r: Result<seq<Byte>, EncodeError>)
    ensures r == EncodedFile(list, input)
  {
    var enc := LookupMapEncodings(list);
    var header := WriteHeader(list);
    if header.Failure? {
      return Failure(header.error);
    }
    var payload := WritePayload(enc, input);
    if payload.Failure? {
      return Failure(payload.error);
    }
    r := Success(header.value + payload.value);
  }

  /** The header loop: the count byte, then a character byte and a length byte per record. */
  method WriteHeader(list: seq<Huffman>) returns (r: Result<seq<Byte>, EncodeError>)
    ensures r.Success? <==> HeaderPairs(list).Success?
    ensures r.Failure? ==> r.error == HeaderPairs(list).error
    ensures r.Success? ==> r.value == [Low8(|list|)] + HeaderPairs(list).value
  {
    var out: seq<Byte> := [Low8(|list|)];
    var i := 0;
    while i < |list|
      invariant 0 <= i <= |list|
      invariant HeaderPairs(list[..i]).Success?
      invariant out == [Low8(|list|)] + HeaderPairs(list[..i]).value
    {
      assert list[..i + 1][..i] == list[..i];
      if list[i].length < 0 {
        assert HeaderPairs(list[..i + 1]).Failure?;
        FirstNegative(list, i + 1);
        return Failure(NegativeLength(list[i].character));
      }
      out := out + [Low8(list[i].character), Low8(list[i].length)];
      i := i + 1;
    }
    assert list[..i] == list;
    r := Success(out);
  }

  /**
    The payload loops: a code appended per input character, and one chunk
    of eight bits written whenever more than eight are pending; then the
    sentinel's code, the padding and the remaining chunks.
  */
  method WritePayload(enc: map<Char, Bits>, input: seq<Char>) returns (r: Result<seq<Byte>, EncodeError>)
    ensures CodeStream(enc, input).Failure? ==> r == Failure(CodeStream(enc, input).error)
    ensures CodeStream(enc, input).Success? && SENTINEL !in enc ==> r == Failure(MissingCode(SENTINEL))
    ensures CodeStream(enc, input).Success? && SENTINEL in enc ==>
      r == Success(Pack(Frame(CodeStream(enc, input).value + enc[SENTINEL])))
  {
    var codes, consumed := WriteCodes(enc, input);
    if codes.Failure? {
      return Failure(codes.error);
    }
    var (out, eightBit) := codes.value;
    if SENTINEL !in enc {
      return Failure(MissingCode(SENTINEL));
    }
    AppendCode(consumed, eightBit, enc[SENTINEL]);
    eightBit := eightBit + enc[SENTINEL];
    ghost var pending := eightBit;
    eightBit := PadToBytes(eightBit);
    FrameSplit(consumed, pending);
    out := Flush(out, consumed, eightBit);
    r := Success(out);
  }

  /**
    The loop over the input: the bytes written so far and the bits still
    pending, which together are the codes of the input.
  */
  method WriteCodes(enc: map<Char, Bits>, input: seq<Char>)
    returns (r: Result<(seq<Byte>, Bits), EncodeError>, ghost consumed: Bits)
    ensures r.Failure? <==> CodeStream(enc, input).Failure?
    ensures r.Failure? ==> r.error == CodeStream(enc, input).error
    ensures r.Success? ==> |consumed| % 8 == 0 && r.value.0 == Pack(consumed)
    ensures r.Success? ==> consumed + r.value.1 == CodeStream(enc, input).value
  {
    var out: seq<Byte> := [];
    var eightBit: Bits := [];
    consumed := [];
    var j := 0;
    while j < |input|
      invariant 0 <= j <= |input|
      invariant CodeStream(enc, input[..j]).Success?
      invariant consumed + eightBit == CodeStream(enc, input[..j]).value
      invariant |consumed| % 8 == 0
      invariant out == Pack(consumed)
    {
      var c := input[j];
      assert input[..j + 1][..j] == input[..j];
      if c !in enc {
        CodePrefixFails(enc, input, j + 1);
        return Failure(MissingCode(c)), consumed;
      }
      AppendCode(consumed, eightBit, enc[c]);
      eightBit := eightBit + enc[c];
      if |eightBit| > 8 {
        out, consumed, eightBit := WriteChunk(out, consumed, eightBit);
      }
      j := j + 1;
    }
    assert input[..j] == input;
    r := Success((out, eightBit));
  }

  /** The last loop: every remaining chunk of eight bits is written. */
  method Flush(out: seq<Byte>, ghost consumed: Bits, eightBit: Bits) returns (out': seq<Byte>)
    requires |consumed| % 8 == 0 && |eightBit| % 8 == 0 && out == Pack(consumed)
    requires |consumed + eightBit| % 8 == 0
    ensures out' == Pack(consumed + eightBit)
  {
    ghost var whole := consumed + eightBit;
    out' := out;
    ghost var done := consumed;
    var rest := eightBit;
    while |rest| > 0
      invariant |done| % 8 == 0 && |rest| % 8 == 0
      invariant done + rest == whole
      invariant out' == Pack(done)
    {
      ModDown(|rest|);
      out', done, rest := WriteChunk(out', done, rest);
    }
    assert done + rest == done;
  }

  /** Write the first eight pending bits as one byte. */
  method WriteChunk(out: seq<Byte>, ghost consumed: Bits, eightBit: Bits)
    returns (out': seq<Byte>, ghost consumed': Bits, eightBit': Bits)
    requires |eightBit| >= 8 && |consumed| % 8 == 0 && out == Pack(consumed)
    ensures consumed' + eightBit' == consumed + eightBit
    ensures |consumed'| % 8 == 0 && out' == Pack(consumed')
    ensures |eightBit'| == |eightBit| - 8
  {
    var write := eightBit[..8];
    ChunkStep(consumed, write);
    out' := out + [ParseByte(write)];
    consumed' := consumed + write;
    eightBit' := eightBit[8..];
    MoveChunk(consumed, eightBit);
  }

  /** Packing one more byte's bits appends that byte. */
  lemma ChunkStep(consumed: Bits, write: Bits)
    requires |consumed| % 8 == 0 && |write| == 8
    ensures |consumed + write| % 8 == 0
    ensures Pack(consumed + write) == Pack(consumed) + [ParseByte(write)]
  {
    ModStep(|consumed|);
    PackByte(write);
    PackAppend(consumed, write);
  }

  /** Moving eight pending bits to the written ones keeps their concatenation. */
  lemma MoveChunk(consumed: Bits, eightBit: Bits)
    requires |eightBit| >= 8
    ensures (consumed + eightBit[..8]) + eightBit[8..] == consumed + eightBit
  {
    assert eightBit == eightBit[..8] + eightBit[8..];
  }

  /** Appending a code to the pending bits appends it to everything produced so far. */
  lemma AppendCode(consumed: Bits, eightBit: Bits, code: Bits)
    ensures consumed + (eightBit + code) == (consumed + eightBit) + code
  {
  }

  /**
    Padding the pending bits pads the whole stream, since the bits already
    written fill whole bytes.
  */
  lemma FrameSplit(consumed: Bits, pending: Bits)
    requires |consumed| % 8 == 0
    ensures |pending + Zeros(PadCount(|pending|))| % 8 == 0
    ensures consumed + (pending + Zeros(PadCount(|pending|))) == Frame(consumed + pending)
  {
    var z := Zeros(PadCount(|pending|));
    PadShift(|consumed|, |pending|);
    assert Frame(consumed + pending) == (consumed + pending) + z;
    assert consumed + (pending + z) == (consumed + pending) + z;
  }

  /** Whole bytes in front do not change the padding. */
  lemma PadShift(a: nat, b: nat)
    requires a % 8 == 0
    ensures PadCount(a + b) == PadCount(b) && (b + PadCount(b)) % 8 == 0
  {
  }

  lemma ModDown(n: nat)
    requires n % 8 == 0 && n > 0
    ensures n >= 8 && (n - 8) % 8 == 0
  {
  }

  lemma ModStep(n: nat)
    requires n % 8 == 0
    ensures (n + 8) % 8 == 0
  {
  }

  /** Append '0' bits until the pending bits fill whole bytes. */
  method PadToBytes(eightBit: Bits) returns (r: Bits)
    ensures r == eightBit + Zeros(PadCount(|eightBit|))
  {
    r := eightBit;
    while |r| % 8 != 0
      invariant |eightBit| <= |r| <= |eightBit| + PadCount(|eightBit|)
      invariant r == eightBit + Zeros(|r| - |eightBit|)
      decreases |eightBit| + PadCount(|eightBit|) - |r|
    {
      PadEnd(|eightBit|, |r|);
      ZerosSnoc(eightBit, |r| - |eightBit|);
      r := r + [false];
    }
    PadEnd(|eightBit|, |r|);
  }

  /** Between n and n plus its padding, only the padded length is a whole number of bytes. */
  lemma PadEnd(n: nat, m: nat)
    requires n <= m <= n + PadCount(n)
    ensures m % 8 == 0 <==> m == n + PadCount(n)
  {
  }

  lemma ZerosSnoc(bits: Bits, k: nat)
    ensures (bits + Zeros(k)) + [false] == bits + Zeros(k + 1)
  {
    assert Zeros(k) + [false] == Zeros(k + 1);
  }

  /** Once a prefix of the list has a negative length, the header stops with that record's error. */
  lemma {:induction false} FirstNegative(list: seq<Huffman>, k: nat)
    requires k <= |list| && HeaderPairs(list[..k]).Failure?
    ensures HeaderPairs(list) == HeaderPairs(list[..k])
    decreases |list| - k
  {
    if k < |list| {
      var next := list[..k + 1];
      assert next[..k] == list[..k];
      assert HeaderPairs(next) == HeaderPairs(list[..k]);
      FirstNegative(list, k + 1);
    } else {
      assert list[..k] == list;
    }
  }

  /** Once a prefix of the input has a character without code, so does the whole input. */
  lemma {:induction false} CodePrefixFails(enc: map<Char, Bits>, input: seq<Char>, k: nat)
    requires k <= |input| && CodeStream(enc, input[..k]).Failure?
    ensures CodeStream(enc, input) == CodeStream(enc, input[..k])
    decreases |input| - k
  {
    if k < |input| {
      var next := input[..k + 1];
      assert next[..k] == input[..k];
      assert CodeStream(enc, next) == CodeStream(enc, input[..k]);
      CodePrefixFails(enc, input, k + 1);
    } else {
      assert input[..k] == input;
    }
  }

  /** The code stream read from the front: the first character's code, then the codes of the rest. */
  lemma {:induction false} CodeStreamCons(enc: map<Char, Bits>, c: Char, rest: seq<Char>)
    requires c in enc && forall i :: 0 <= i < |rest| ==> rest[i] in enc
    ensures CodeStream(enc, [c] + rest).Success?
    ensures CodeStream(enc, [c] + rest).value == enc[c] + CodeStream(enc, rest).value
    decreases |rest|
  {
    var input := [c] + rest;
    if |rest| == 0 {
      assert input[..0] == [];
    } else {
      var front := rest[..|rest| - 1];
      var last := rest[|rest| - 1];
      assert input[..|input| - 1] == [c] + front;
      assert input[|input| - 1] == last;
      CodeStreamCons(enc, c, front);
      var b := CodeStream(enc, front).value;
      assert (enc[c] + b) + enc[last] == enc[c] + (b + enc[last]);
    }
  }
}
