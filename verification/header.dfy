/**
  `readInputFile`: the decoder's view of an encoded file. The first byte is
  read as a signed count; then, count times, a character byte and a length
  byte go into a map, a later pair overwriting an earlier one with the same
  character; every remaining byte becomes an eight-bit string. Reading past
  the end yields -1, which the `(char)` cast turns into 0xFFFF. An empty
  file makes the count read throw, which leaves the map and the bit
  strings empty.
*/
module HeaderReader {
  import opened Types
  import opened Binary

  /** What the decoder takes from the file: the length map and the payload's bit strings. */
  datatype Header = Header(pairs: map<Char, int>, chunks: seq<Bits>)

  /** `DataInputStream.readByte`: the byte as a two's-complement value. */
  function SignedByte(b: Byte): (v: int)
    ensures -0x80 <= v < 0x80
    ensures (v - b) % 0x100 == 0
  {
    if b < 0x80 then b else b - 0x100
  }

  /** `InputStream.read` at position k: the byte, or -1 past the end. */
  function ReadAt(file: seq<Byte>, k: nat): (v: int)
    ensures -1 <= v < 0x100
    ensures v == -1 <==> k >= |file|
  {
    if k < |file| then file[k] else -1
  }

  /** The `(char)` cast of an `int`: its low sixteen bits. */
  function ToChar(x: int): (c: Char)
    ensures 0 <= x < 0x1_0000 ==> c == x
    ensures x == -1 ==> c == 0xFFFF
  {
    x % 0x1_0000
  }

  /** The map after the first n pairs of the header have been put. */
  function PairsRead(file: seq<Byte>, n: nat): (m: map<Char, int>)
    ensures forall c :: c in m ==> -1 <= m[c] < 0x100
  {
    if n == 0 then map[]
    else PairsRead(file, n - 1)[ToChar(ReadAt(file, 2 * n - 1)) := ReadAt(file, 2 * n)]
  }

  /** The map's keys are the characters of the pairs read. */
  lemma {:induction false} PairsReadKeys(file: seq<Byte>, n: nat)
    ensures forall c :: c in PairsRead(file, n) <==> exists i :: 0 <= i < n && ToChar(ReadAt(file, 1 + 2 * i)) == c
  {
    if n > 0 {
      PairsReadKeys(file, n - 1);
      var last := ToChar(ReadAt(file, 2 * n - 1));
      assert last == ToChar(ReadAt(file, 1 + 2 * (n - 1)));
      forall c | c in PairsRead(file, n) ensures exists i :: 0 <= i < n && ToChar(ReadAt(file, 1 + 2 * i)) == c {
        if c != last {
          assert c in PairsRead(file, n - 1);
          var i :| 0 <= i < n - 1 && ToChar(ReadAt(file, 1 + 2 * i)) == c;
        }
      }
    }
  }

  /** A character maps to the length of the last pair that names it. */
  lemma {:induction false} PairsLastWins(file: seq<Byte>, n: nat, i: nat)
    requires i < n
    requires forall j :: i < j < n ==> ToChar(ReadAt(file, 1 + 2 * j)) != ToChar(ReadAt(file, 1 + 2 * i))
    ensures ToChar(ReadAt(file, 1 + 2 * i)) in PairsRead(file, n) &&
      PairsRead(file, n)[ToChar(ReadAt(file, 1 + 2 * i))] == ReadAt(file, 2 + 2 * i)
  {
    if i < n - 1 {
      PairsLastWins(file, n - 1, i);
    }
  }

  /** The number of pairs the loop reads: the signed count, or none when it is negative. */
  function PairCount(file: seq<Byte>): (n: nat)
    requires |file| > 0
    ensures n < 0x80
    ensures n == 0 <==> file[0] == 0 || file[0] >= 0x80
  {
    var count := SignedByte(file[0]);
    if count < 0 then 0 else count
  }

  /** `readInputFile`, with the bit strings it collects on the side. */
  function ReadInputFile(file: seq<Byte>): (r: Header)
    ensures |file| == 0 ==> r.pairs == map[] && r.chunks == []
    ensures |file| > 0 && file[0] >= 0x80 ==> r.pairs == map[] && r.chunks == Unpack(file[1..])
    ensures |file| > 0 ==> |r.chunks| <= |file| - 1
    ensures forall i :: 0 <= i < |r.chunks| ==> |r.chunks[i]| == 8
  {
    if |file| == 0 then Header(map[], [])
    else
      var n := PairCount(file);
      var start := if 1 + 2 * n <= |file| then 1 + 2 * n else |file|;
      Header(PairsRead(file, n), Unpack(file[start..]))
  }

  /**
    A header cut short: when the file ends before the last pair's length
    byte, that length is read as -1 and no bit strings are left.
  */
  lemma TruncatedHeader(file: seq<Byte>)
    requires |file| > 0 && 0 < SignedByte(file[0]) && |file| <= 2 * SignedByte(file[0])
    ensures ReadInputFile(file).chunks == []
    ensures exists c :: c in ReadInputFile(file).pairs && ReadInputFile(file).pairs[c] == -1
  {
    var n := PairCount(file);
    var c := ToChar(ReadAt(file, 2 * n - 1));
    assert ReadInputFile(file).pairs[c] == -1;
  }

  /**
    The header laid out by the encoder for a list of records with distinct
    characters: one count byte, then a character byte and a length byte per
    record.
  */
  predicate HeaderLayout(file: seq<Byte>, list: seq<Huffman>) {
    |file| >= 1 + 2 * |list| && file[0] == |list| &&
    forall i :: 0 <= i < |list| ==> file[1 + 2 * i] == list[i].character && file[2 + 2 * i] == list[i].length
  }

  /**
    Reading back a header of at most 127 records with distinct characters
    recovers each record's length under its character, and nothing else,
    and hands every byte after the header to the payload.
  */
  lemma HeaderRoundTrip(file: seq<Byte>, list: seq<Huffman>)
    requires HeaderLayout(file, list) && |list| < 0x80 && DistinctChars(list)
    ensures forall c :: c in ReadInputFile(file).pairs <==> exists i :: 0 <= i < |list| && list[i].character == c
    ensures forall i :: 0 <= i < |list| ==> ReadInputFile(file).pairs[list[i].character] == list[i].length
    ensures ReadInputFile(file).chunks == Unpack(file[1 + 2 * |list|..])
  {
    assert PairCount(file) == |list|;
    PairsReadLayout(file, list, |list|);
  }

  lemma {:induction false} PairsReadLayout(file: seq<Byte>, list: seq<Huffman>, n: nat)
    requires HeaderLayout(file, list) && n <= |list| && DistinctChars(list)
    ensures forall c :: c in PairsRead(file, n) <==> exists i :: 0 <= i < n && list[i].character == c
    ensures forall i :: 0 <= i < n ==> PairsRead(file, n)[list[i].character] == list[i].length
  {
    forall i | 0 <= i < n ensures ToChar(ReadAt(file, 1 + 2 * i)) == list[i].character {
      assert file[1 + 2 * i] == list[i].character;
    }
    if n > 0 {
      PairsReadLayout(file, list, n - 1);
      var m := PairsRead(file, n - 1);
      assert ReadAt(file, 2 * n - 1) == list[n - 1].character;
      assert ReadAt(file, 2 * n) == list[n - 1].length;
      assert PairsRead(file, n) == m[list[n - 1].character := list[n - 1].length];
    }
  }
}
