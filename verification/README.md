# Canonical Huffman codec (dblossom/huffman) in Dafny

This project models the encoder and decoder of the `huffman` Java package:
a canonical Huffman codec with an in-band end-of-stream sentinel (character
0x00). It proves properties of the model.

The encoder works in these steps:

- `Encode.readInputMap` counts the characters of the input, with the
  sentinel seeded at count one.
- `HuffmanUtilities.huffmanTree` builds a Huffman tree with a priority queue.
- `inorder` walks the tree into `Huffman` records of character, code and
  length.
- `sortHuffmanList` orders the records: longest code first, then smallest
  character.
- `canonicalize` assigns canonical codes from a counter.
- `writeEncodedFile` writes the file. It starts with a count byte, then one
  (character, length) byte pair per record, then the codes of the input and
  the sentinel's code, padded with zeros to whole bytes.

The decoder works in these steps:

- `Decode.readInputFile` reads the header back into a map and turns every
  later byte into an eight-bit string.
- `sortInputMap` sorts the map's entries, and `canonicalize` rebuilds the
  codes from them.
- `lookupMap` maps each code to its character.
- `writeFile` decodes greedily: it tries ever longer prefixes of the bits,
  carries leftover bits from one byte to the next, and stops at the
  sentinel.

Modules, one per part of the program:

| module | file | models |
|---|---|---|
| `Types` | types.dfy | `Huffman` record, `Char` (Java `char`), bytes, bit strings, `Result` |
| `Binary` | binary.dfy | `Integer.toBinaryString`, `parseInt(s, 2)`, `padRight`, byte chunking |
| `Codes` | codes.dfy | prefix-freedom and the Kraft sum of a code table |
| `Nodes` | nodes.dfy | `Node` and its `compareTo` |
| `Frequency` | frequency.dfy | `Encode.readInputMap` |
| `TreeBuilder` | tree_builder.dfy | `huffmanTree` |
| `TreeWalk` | tree_walk.dfy | `inorder` |
| `Sorting` | sorting.dfy | `sortHuffmanList`, `sortInputMap` |
| `Canonical` | canonical.dfy | `canonicalize` |
| `Lookup` | lookup.dfy | `lookupMap`, `lookupMapEncodings` |
| `CodeTable` | code_table.dfy | the encoder's table: walk, sort, canonicalize |
| `Packer` | packer.dfy | `writeEncodedFile` |
| `HeaderReader` | header.dfy | `Decode.readInputFile`, `setFileLength` |
| `StreamDecoder` | stream_decoder.dfy | `writeFile` |
| `Pipeline` | pipeline.dfy | `Encode.encode`, `Decode.decode` and the round trip |
| `Scenarios` | scenarios.dfy | worked examples: the empty input and a one-letter input |

Main results:

- **Canonical codes.** `Canonicalize` gives a prefix-free code whose codes
  have exactly the records' lengths (`Canonical.CanonicalPrefixFree`). This
  holds for a list sorted by non-increasing length, with lengths in 1..31,
  that satisfies the Kraft equality. The walk of a full tree supplies exactly
  such lengths (`TreeWalk.ShapedWalkKraft`, `CodeTable.WalkCodes`).
- **Round trip.** Decoding the encoded file gives the input's bytes up to the
  first 0x00 (`Pipeline.RoundTrip`). This needs a full tree of the
  input's counts no deeper than 31 (every tree the builder returns is full,
  whatever order it merges in), characters below 256, at most 127
  distinct characters counting the sentinel 0x00 (126 when the input holds
  no 0x00), and no 0x01 in the input. Without 0x00 in the input
  the whole input comes back (`Pipeline.RoundTripWhole`).
- **Worked examples.** The empty input encodes to the bytes 1, 0, 0, 0, which
  decode to nothing (`Scenarios.EmptyInputFile`). The input "A" round-trips
  with a two-leaf tree (`Scenarios.LetterRoundTrip`). Both show that the
  round trip's conditions can be met.
- **Encoder failure.** An input containing 0x01 cannot be encoded
  (`Pipeline.InteriorFails`).
- **Loops match the functions.** The methods `TreeBuilder.Rounds` (the
  loop of `huffmanTree`, with the invariant `Building`),
  `StreamDecoder.WriteFile` (the outer loop of `writeFile`) and
  `StreamDecoder.DecodeBits` (its inner loop) carry loop invariants.
  `HuffmanTree` itself has no loop: it calls `Rounds`, then `PollSingle`,
  then `Finished`. `WriteEncodedFile` has no loop of its own either. Its
  helpers `WriteHeader`, `WriteCodes`, `PadToBytes` and `Flush` carry the
  loop invariants. Together they state that the loops compute the
  functional definitions the theorems speak about.

Modelling choices:

- A Java `char` is an integer in 0..0xFFFF. A byte written by
  `OutputStream.write` keeps its low eight bits (`Types.Low8`).
- A Java bit `String` is a `seq<bool>`, and `false` stands for '0'.
- A Java `null` child is `Nil`.
- The tie order of `PriorityQueue` is unspecified, so `TreeBuilder.Poll` may
  return any node of least frequency. Every property of the encoder holds
  for every such choice.
- The model enumerates a `HashMap`'s keys in ascending order. For the
  lists that `canonicalize` and the decoder build from maps the order does
  not matter, because they are sorted afterwards. The leaves that
  `huffmanTree` puts into its `PriorityQueue` are not sorted, and the
  queue's tie-breaking depends on their insertion order. The model is
  insensitive to that order only because `TreeBuilder.Poll` may return any
  node of least frequency.
- Java masks the shift count of `>>` to five bits. This is modelled as
  `% 32` on the counter step.
- Exceptions the encoder cannot avoid are `Failure` values
  (`Packer.EncodeError`):
  - a character without a code puts `"null"` into the bit string, which
    makes `Integer.parseInt` throw;
  - a negative length becomes a 32-digit binary string, which also makes
    `Integer.parseInt` throw.

The code departs from what its own comments and names say in these ways,
and the model follows the code:

- The comment at Encode.java:72 says the end marker's count "better only be
  one". But a 0x00 in the input shares the marker's entry of the frequency
  map, and so its code. Decoding stops at the first 0x00 of the input
  (`Pipeline.UpToSentinel`).
- `huffmanTree` marks interior nodes with 0x01 (HuffmanUtilities.java:238-240).
  The walk skips every node with that character (HuffmanUtilities.java:265-266),
  including a leaf for an input 0x01. That character gets no record, so an
  input containing it cannot be encoded.
- The comment at Decode.java:87 says the first byte gives the number of
  characters. It is written as the low eight bits of the record count
  (HuffmanUtilities.java:366-367). It is read back with `readByte`, as a
  signed byte (Decode.java:125). When the low byte of the record count is 128
  or more, the decoder reads a negative count and no pairs, and it treats
  every byte after the count as payload. With 256 or more records the low
  byte may be below 128 instead: with 300 records the decoder reads 44
  pairs and treats the rest of the header as payload
  (`HeaderReader.ReadInputFile`). Nothing reports the overflow.
- A file cut short is not reported as such. The header's pairs and the
  payload are read with `read()` (Decode.java:94, 96 and 104), which returns
  -1 past the end of the file instead of throwing, and nothing checks for it:
  - a missing pair byte reads as -1 and goes into the map
    (`HeaderReader.TruncatedHeader`);
  - only an empty file reaches the `catch` (Decode.java:108-114), through the
    EOFException of `readByte` (Decode.java:125); it decodes to nothing
    (`Pipeline.EmptyFile`);
  - bits left without a match when `writeFile`'s outer loop runs out of
    chunks (HuffmanUtilities.java:310-346) are dropped, and what was decoded
    so far is the output.
- The header writes each character as an eight-bit field
  (HuffmanUtilities.java:371). Characters above 0xFF are written as their
  low byte, in the header and in the output alike.
- `padRight` pads on the left, as its own comment admits
  (HuffmanUtilities.java:101-102).

## Model

| member | source | states |
|---|---|---|
| Types.NewHuffman | huffman/src/huffman/Huffman.java:25-28 | a record built from a character and a length keeps both and holds the placeholder code "0" |
| Types.Low8 | huffman/src/huffman/HuffmanUtilities.java:330 | a written byte is the value when it fits in a byte, and in general agrees with it modulo 256 |
| Types.KeysAscending | huffman/src/huffman/HuffmanUtilities.java:47-49 | the enumeration of a map's entries visits every key, only keys, and each key once |
| Binary.ToBinary | huffman/src/huffman/HuffmanUtilities.java:142 | `Integer.toBinaryString` of a non-negative number denotes that number, is non-empty, and starts with '1' unless it is "0" |
| Binary.ToBinaryFits | huffman/src/huffman/HuffmanUtilities.java:142-146 | a number below 2^length has a binary string no longer than length |
| Binary.PadRight | huffman/src/huffman/HuffmanUtilities.java:107-116 | the padded string is max(length, original) long, ends with the original, has only '0' in front of it, keeps its value, and a long enough string comes back unchanged |
| Binary.CodeOf | huffman/src/huffman/HuffmanUtilities.java:142-146 | the code denotes the counter, and is as long as the counter's binary form or the width, whichever is longer |
| Binary.CodeOfExact | huffman/src/huffman/HuffmanUtilities.java:142-146 | a counter that fits the width gets a code of exactly that width denoting the counter |
| Binary.ByteBits | huffman/src/huffman/Decode.java:104-107 | each payload byte becomes exactly eight bits that denote the byte |
| Binary.ParseByte | huffman/src/huffman/HuffmanUtilities.java:389-391 | parsing an eight-bit chunk is the inverse of the decoder's byte-to-bits conversion |
| Binary.Pack | huffman/src/huffman/HuffmanUtilities.java:405-412 | a whole-byte bit string packs into one byte per eight bits |
| Binary.Unpack | huffman/src/huffman/Decode.java:104-107 | the payload becomes one eight-bit string per byte, in file order |
| Binary.UnpackPack | huffman/src/huffman/Decode.java:104-107 | the decoder's chunks of the bytes the encoder packed join back into the encoder's bit string |
| Binary.PackAppend | huffman/src/huffman/HuffmanUtilities.java:386-412 | packing bit strings in turn packs their concatenation, so chunk-wise writing is packing of the whole |
| Binary.FlattenAppend | huffman/src/huffman/HuffmanUtilities.java:313 | carried-over bits followed by new ones are the concatenation of the chunks |
| Binary.PrefixBounds | huffman/src/huffman/HuffmanUtilities.java:142-146 | a code extending a prefix lies in the prefix's interval of values |
| Codes.PrefixFreeJoin | huffman/src/huffman/HuffmanUtilities.java:263-271 | codes below the left child and codes below the right child together stay prefix-free |
| Nodes.Leaf | huffman/src/huffman/Node.java:26-29 | a node built from a character and a frequency keeps both and has no children |
| Nodes.LeafKeeps | huffman/src/huffman/Node.java:26-29 | such a node is a full, weighted tree of height 0 with no interior node, whose only leaf is itself |
| Nodes.Marker | huffman/src/huffman/Node.java:35-40 | a node built from a frequency alone has no children and carries the interior marker 0x01 |
| Nodes.Merge | huffman/src/huffman/HuffmanUtilities.java:228-240 | the merged node is not a leaf, has the two polled nodes as left and right child, and carries the marker 0x01 and the sum of their frequencies |
| Nodes.MergeKeeps | huffman/src/huffman/HuffmanUtilities.java:228-240 | the merged node's leaves are the left child's followed by the right child's, it has one more interior node than the two together, and it is full and weighted when both children are |
| Nodes.CompareTo | huffman/src/huffman/Node.java:46-54 | the comparison is -1, 0 or 1 exactly when the first frequency is less than, equal to or greater than the second |
| Nodes.CompareToAntisymmetric | huffman/src/huffman/Node.java:46-54 | swapping the operands negates the comparison |
| Nodes.CompareToTransitive | huffman/src/huffman/Node.java:46-54 | "not greater" is transitive, so the queue order is a total preorder |
| Nodes.ShapedCounts | huffman/src/huffman/HuffmanUtilities.java:226-244 | a full tree has one interior node fewer than leaves |
| Nodes.WeightedSum | huffman/src/huffman/HuffmanUtilities.java:236 | when every merge sums its children, the root's frequency is the sum of its leaves' frequencies |
| TreeBuilder.LeavesOf | huffman/src/huffman/HuffmanUtilities.java:217-221 | every initial queue element is a leaf |
| TreeBuilder.LeavesOfEntries | huffman/src/huffman/HuffmanUtilities.java:219-221 | there is one leaf per map entry with the entry's character and frequency, and no character twice |
| TreeBuilder.LeavesOfTotal | huffman/src/huffman/HuffmanUtilities.java:219-221 | the leaves' frequencies add up to the map's total |
| TreeBuilder.MinIndex | huffman/src/huffman/HuffmanUtilities.java:230 | the scan finds a node no greater than any other under `compareTo` |
| TreeBuilder.Poll | huffman/src/huffman/HuffmanUtilities.java:224-233 | extraction returns some node of least frequency; which one among ties is left open |
| TreeBuilder.MergeLeast | huffman/src/huffman/HuffmanUtilities.java:226-244 | one loop round takes out x of least frequency and y of least frequency among the rest, puts their join back last and leaves the other nodes; the queue shrinks by one, keeps its leaves and total frequency, and gains one interior node |
| TreeBuilder.PolledTwice | huffman/src/huffman/HuffmanUtilities.java:229-233 | two polls in a row take out a least node and then a least node of the rest; the rest and the two make up the queue |
| TreeBuilder.ExtendTrace | huffman/src/huffman/HuffmanUtilities.java:226-244 | a record of least-first rounds extended by one more such round is still one |
| TreeBuilder.HuffmanTree | huffman/src/huffman/HuffmanUtilities.java:214-247 | null exactly for an empty map; otherwise a full tree whose leaves are the map's entries, whose merges sum their children, whose root carries the total count, and which has n - 1 interior nodes; it is reached from the map's leaves by rounds that each merge two nodes of least frequency |
| TreeBuilder.Round | huffman/src/huffman/HuffmanUtilities.java:226-244 | one pass of the loop shrinks the queue by one and keeps every loop fact: the queue's leaves, total frequency and interior count, and a record of least-first merges from the map's leaves to the current queue |
| TreeBuilder.Rounds | huffman/src/huffman/HuffmanUtilities.java:217-244 | after the loop the queue holds one node, or none for an empty map, and every loop fact holds for it |
| TreeBuilder.PollSingle | huffman/src/huffman/HuffmanUtilities.java:246 | polling a queue of one node returns that node |
| TreeBuilder.Finished | huffman/src/huffman/HuffmanUtilities.java:245-246 | once n - 1 passes are done, the node left in the queue is null exactly for an empty map and is otherwise the full, weighted tree of the map reached by least-first merges |
| TreeBuilder.LastTree | huffman/src/huffman/HuffmanUtilities.java:245-246 | the last node polled holds every leaf and the total frequency |
| TreeWalk.InOrder | huffman/src/huffman/HuffmanUtilities.java:256-272 | one record per node not marked interior; each code extends the start path, has its length as its size, and no record carries the marker |
| TreeWalk.InOrderPaths | huffman/src/huffman/HuffmanUtilities.java:256-272 | following a record's code from the root reaches a node carrying that record's character |
| TreeWalk.LeafWalk | huffman/src/huffman/HuffmanUtilities.java:266-268 | a leaf yields one record at its own path unless its character is 0x01 |
| TreeWalk.MarkerWalk | huffman/src/huffman/Node.java:35-40 | a node built as interior gives no record |
| TreeWalk.MergeWalk | huffman/src/huffman/HuffmanUtilities.java:263-271 | a merged node's records are its left child's under '0' followed by its right child's under '1' |
| TreeWalk.ShapedSplit | huffman/src/huffman/HuffmanUtilities.java:263-271 | below a node with children the walk is the left walk followed by the right walk |
| TreeWalk.ShapedWalkPrefixFree | huffman/src/huffman/HuffmanUtilities.java:263-271 | the walk of a full tree gives pairwise prefix-free paths |
| TreeWalk.ShapedWalkLeaves | huffman/src/huffman/HuffmanUtilities.java:266-268 | with no leaf marked 0x01 the walk gives exactly one record per leaf, in leaf order |
| TreeWalk.ShapedWalkDepths | huffman/src/huffman/HuffmanUtilities.java:263-267 | record lengths lie between the start depth and the tree's height, strictly below a node with children |
| TreeWalk.ShapedWalkKraft | huffman/src/huffman/HuffmanUtilities.java:256-272 | the walk of a full tree satisfies the Kraft equality: its 2^-length terms sum to 2^-depth of the start |
| TreeWalk.LeafOnly | huffman/src/huffman/HuffmanUtilities.java:266-267 | a lone unmarked leaf gets the empty path and length 0 |
| Sorting.Compare | huffman/src/huffman/HuffmanUtilities.java:78-94 | the comparator puts the longer code first, and on equal lengths the smaller character; it is 0 only for the same length and character |
| Sorting.CompareAntisymmetric | huffman/src/huffman/HuffmanUtilities.java:78-94 | the comparator is antisymmetric, as `Collections.sort` requires |
| Sorting.Insert | huffman/src/huffman/HuffmanUtilities.java:75-95 | inserting into a sorted list adds exactly the record and keeps it sorted |
| Sorting.SortHuffmanList | huffman/src/huffman/HuffmanUtilities.java:72-98 | the result is a permutation of the input in which every record precedes the ones after it |
| Sorting.SortKraft | huffman/src/huffman/HuffmanUtilities.java:72-98 | sorting keeps the Kraft sum of the lengths |
| Sorting.SortedUnique | huffman/src/huffman/HuffmanUtilities.java:72-98 | two sorted arrangements of the same records with distinct characters are equal, so the order of the input does not matter |
| Sorting.SortedUniqueMembers | huffman/src/huffman/HuffmanUtilities.java:72-98 | sorted lists with distinct characters and the same members are equal |
| Sorting.PermutationDistinct | huffman/src/huffman/HuffmanUtilities.java:72-98 | sorting keeps the characters distinct |
| Sorting.Strip | huffman/src/huffman/HuffmanUtilities.java:48 | records reduced to character and length with the placeholder code keep order and distinctness |
| Sorting.Entries | huffman/src/huffman/HuffmanUtilities.java:47-49 | the map's entries become one placeholder record per key |
| Sorting.SortInputMap | huffman/src/huffman/HuffmanUtilities.java:41-57 | the map's records come out sorted |
| Sorting.EntriesOf | huffman/src/huffman/HuffmanUtilities.java:47-49 | the unsorted records are exactly one per entry, with the entry's value as length and no character twice |
| Sorting.SortInputMapEntries | huffman/src/huffman/HuffmanUtilities.java:41-57 | the sorted records are exactly the map's entries: one per key, with its value as length, no character twice |
| Canonical.ShiftDivisor | huffman/src/huffman/HuffmanUtilities.java:156 | the shift count is taken to five bits, so the divisor is a positive power of two, and 1 when the length does not change |
| Canonical.NextNumber | huffman/src/huffman/HuffmanUtilities.java:154-157 | the next counter is the floor of (counter + 1) / 2^(drop in length, masked to five bits): its multiple of the divisor lies at or below counter + 1 and the next multiple above it; it is at most one more than the counter, and exactly one more when the length stays |
| Canonical.Counters | huffman/src/huffman/HuffmanUtilities.java:138-157 | the counter takes one value per record, starting from the initial one |
| Canonical.Canonicalize | huffman/src/huffman/HuffmanUtilities.java:135-161 | every record keeps its character, length and position |
| Canonical.NextNumberStep | huffman/src/huffman/HuffmanUtilities.java:154-157 | with the Kraft equality one counter step divides exactly: the new counter at the next weight is the space used so far |
| Canonical.WeightShift | huffman/src/huffman/HuffmanUtilities.java:156 | for lengths in 1..31 the masked shift is the plain shift by the drop in length |
| Canonical.CountersInvariant | huffman/src/huffman/HuffmanUtilities.java:140-158 | every counter value fits its record's length, and scaled to its weight it equals the Kraft sum of the records before it |
| Canonical.CountersFromZero | huffman/src/huffman/HuffmanUtilities.java:138-158 | the invariant from counter 0 on a sorted complete list |
| Canonical.CanonicalCodes | huffman/src/huffman/HuffmanUtilities.java:140-158 | each code has exactly its record's length and its value marks the start of its record's share of the code space |
| Canonical.CanonicalPrefixFree | huffman/src/huffman/HuffmanUtilities.java:135-161 | on a sorted list with lengths 1..31 and the Kraft equality, codes have exactly their lengths and none is a prefix of another |
| Canonical.NoPrefixLater | huffman/src/huffman/HuffmanUtilities.java:140-158 | the codes of an earlier and a later record are prefixes of neither |
| Canonical.KraftPrefixGrows | huffman/src/huffman/HuffmanUtilities.java:140-158 | a later record's share starts at least one earlier weight after the earlier record's |
| Canonical.SingleRecord | huffman/src/huffman/HuffmanUtilities.java:142-148 | a lone record of length 0 gets the one-bit code "0" |
| Canonical.CountersOnlyLengths | huffman/src/huffman/HuffmanUtilities.java:154-157 | the counter depends on the lengths alone |
| Canonical.CanonicalizeIgnoresCodes | huffman/src/huffman/HuffmanUtilities.java:135-161 | lists that agree on characters and lengths get identical codes, whatever codes they held, so the encoder and decoder agree and repeating the assignment changes nothing |
| Canonical.EqualLengthCode | huffman/src/huffman/HuffmanUtilities.java:140-157 | records all of one length get the binary forms of their positions |
| Canonical.EqualLengthCounters | huffman/src/huffman/HuffmanUtilities.java:154-157 | on equal lengths the counter just counts up by one |
| Canonical.TwoBitCodeAt | huffman/src/huffman/HuffmanUtilities.java:281-282 | among records all of length 2, position i gets the two bits spelling i, so four such records get 00, 01, 10 and 11 |
| Lookup.LookupMap | huffman/src/huffman/HuffmanUtilities.java:171-182 | the keys are exactly the records' codes |
| Lookup.LookupMapEncodings | huffman/src/huffman/HuffmanUtilities.java:188-199 | the keys are exactly the records' characters |
| Lookup.LookupMapLastWins | huffman/src/huffman/HuffmanUtilities.java:176-178 | a code maps to the character of the last record carrying it |
| Lookup.EncodingsLastWins | huffman/src/huffman/HuffmanUtilities.java:193-195 | a character maps to the code of the last record carrying it |
| Lookup.LookupInverse | huffman/src/huffman/HuffmanUtilities.java:171-199 | with distinct characters and codes, the two maps are inverse to each other in both directions |
| Frequency.CountChar | huffman/src/huffman/Encode.java:86-91 | reading a character adds it to the keys and raises its count by one, leaving the other counts alone |
| Frequency.ReadInputMap | huffman/src/huffman/Encode.java:69-103 | the keys are the sentinel and the characters read; each count is the number of occurrences, with one more for the sentinel |
| Frequency.ReadInputMapTotal | huffman/src/huffman/Encode.java:69-103 | the counts add up to the input length plus one |
| CodeTable.SortedWalk | huffman/src/huffman/Encode.java:53-55 | the sorted walk is a sorted permutation of the walk's records |
| CodeTable.CodeList | huffman/src/huffman/Encode.java:53-57 | the final table keeps the sorted walk's characters and lengths, position by position |
| CodeTable.LeavesAreEntries | huffman/src/huffman/HuffmanUtilities.java:219-221 | the built tree's leaves are exactly the map's entries, each once |
| CodeTable.GoodTreeUnmarked | huffman/src/huffman/HuffmanUtilities.java:266 | without 0x01 among the counted characters, no leaf is skipped by the walk |
| CodeTable.WalkTable | huffman/src/huffman/Encode.java:49-53 | the walk gives one record per map entry and no character twice |
| CodeTable.WalkCodes | huffman/src/huffman/HuffmanUtilities.java:256-272 | the walk's codes are prefix-free and satisfy the Kraft equality; a lone leaf gets length 0, otherwise every length is positive |
| CodeTable.PermutedTable | huffman/src/huffman/HuffmanUtilities.java:72-98 | reordering a table keeps it a table of the same map |
| CodeTable.SortedTable | huffman/src/huffman/Encode.java:55 | sorting keeps the table and its lengths, and orders the lengths non-increasingly |
| CodeTable.CanonicalTable | huffman/src/huffman/Encode.java:57 | canonical codes on the sorted table make it decodable |
| CodeTable.LoneCodeDecodable | huffman/src/huffman/HuffmanUtilities.java:142-148 | an input that yields only the sentinel still gets a usable one-bit code |
| CodeTable.PositiveCodesDecodable | huffman/src/huffman/HuffmanUtilities.java:135-161 | canonical codes for positive sorted complete lengths are non-empty and prefix-free |
| CodeTable.CodeListDecodable | huffman/src/huffman/Encode.java:47-57 | for a full tree of the counts without 0x01 and no deeper than 31, the encoder's table has one record per entry, distinct characters and non-empty prefix-free codes |
| HeaderReader.SignedByte | huffman/src/huffman/Decode.java:124-126 | the count is read as a byte in -128..127 that agrees with the raw byte modulo 256 |
| HeaderReader.ReadAt | huffman/src/huffman/Decode.java:94-96 | a read gives a byte, or -1 exactly past the end of the file |
| HeaderReader.ToChar | huffman/src/huffman/Decode.java:94 | the `(char)` cast keeps a byte and turns -1 into 0xFFFF |
| HeaderReader.PairsRead | huffman/src/huffman/Decode.java:91-99 | every recorded length is a byte or -1 |
| HeaderReader.PairsReadKeys | huffman/src/huffman/Decode.java:91-99 | the map's keys are exactly the characters of the pairs read |
| HeaderReader.PairsLastWins | huffman/src/huffman/Decode.java:98 | a character maps to the length of the last pair naming it |
| HeaderReader.PairCount | huffman/src/huffman/Decode.java:88-91 | the loop reads fewer than 128 pairs, and none exactly when the count byte is 0 or at least 128 |
| HeaderReader.ReadInputFile | huffman/src/huffman/Decode.java:77-116 | an empty file gives nothing; a count byte of 128 or more gives no pairs and every later byte as payload; every chunk is eight bits |
| HeaderReader.TruncatedHeader | huffman/src/huffman/Decode.java:94-99 | a file cut inside the header gives some character the length -1 and no payload |
| HeaderReader.HeaderRoundTrip | huffman/src/huffman/Decode.java:77-116 | reading back a written header of under 128 distinct records recovers exactly their lengths under their characters, and the rest of the file is payload |
| HeaderReader.PairsReadLayout | huffman/src/huffman/Decode.java:91-99 | after n pairs of a written header the map holds exactly the first n records' lengths |
| Packer.HeaderPairs | huffman/src/huffman/HuffmanUtilities.java:370-375 | the pairs succeed exactly when no length is negative, and then hold each record's character and length bytes in list order |
| Packer.CodeStream | huffman/src/huffman/HuffmanUtilities.java:383-385 | the codes succeed exactly when every input character has one; otherwise the error names a character of the input without a code |
| Packer.PadCount | huffman/src/huffman/HuffmanUtilities.java:400-402 | fewer than eight '0' bits fill the stream to whole bytes |
| Packer.Frame | huffman/src/huffman/HuffmanUtilities.java:397-402 | the padded stream starts with the stream and is a whole number of bytes, less than a byte longer |
| Packer.EncodedFile | huffman/src/huffman/HuffmanUtilities.java:357-418 | a written file starts with the low byte of the record count, followed by the header pairs of every record |
| Packer.EncodedFileSucceeds | huffman/src/huffman/HuffmanUtilities.java:357-418 | encoding succeeds exactly when no length is negative and every input character and the sentinel have codes |
| Packer.EncodedFileLayout | huffman/src/huffman/HuffmanUtilities.java:357-418 | a successful file is the count byte, the pairs, then bytes that unpack to the input's codes, the sentinel's code and the padding |
| Packer.WriteEncodedFile | huffman/src/huffman/HuffmanUtilities.java:357-418 | the writer's bytes, or its error, are those of the encoded file |
| Packer.WriteHeader | huffman/src/huffman/HuffmanUtilities.java:365-375 | the header loop writes the count byte and the pairs, or fails on the first negative length |
| Packer.WritePayload | huffman/src/huffman/HuffmanUtilities.java:377-412 | the payload loops write the packed, padded codes and sentinel code, or fail on the first character without a code |
| Packer.WriteCodes | huffman/src/huffman/HuffmanUtilities.java:380-395 | the bytes written plus the pending bits are exactly the input's codes so far |
| Packer.Flush | huffman/src/huffman/HuffmanUtilities.java:405-412 | the last loop writes every remaining whole byte |
| Packer.WriteChunk | huffman/src/huffman/HuffmanUtilities.java:389-393 | writing eight pending bits moves them to the written bytes |
| Packer.PadToBytes | huffman/src/huffman/HuffmanUtilities.java:400-402 | the padding loop appends exactly the '0' bits that reach a whole byte |
| Packer.FrameSplit | huffman/src/huffman/HuffmanUtilities.java:396-402 | padding only the pending bits pads the whole stream, since the written bits fill whole bytes |
| Packer.FirstNegative | huffman/src/huffman/HuffmanUtilities.java:370-375 | the first negative length decides the header's error |
| Packer.CodePrefixFails | huffman/src/huffman/HuffmanUtilities.java:383-385 | the first character without a code decides the payload's error |
| Packer.CodeStreamCons | huffman/src/huffman/HuffmanUtilities.java:383-385 | the code stream read from the front is the first character's code followed by the rest's |
| StreamDecoder.MatchFrom | huffman/src/huffman/HuffmanUtilities.java:317-340 | the pointer stops at the shortest prefix of length at least k that is a key, or no prefix is a key |
| StreamDecoder.Greedy | huffman/src/huffman/HuffmanUtilities.java:310-346 | decoding writes at most one byte per bit; unless the sentinel was met, the leftover bits contain no key as a prefix |
| StreamDecoder.FirstMatchIs | huffman/src/huffman/HuffmanUtilities.java:321-339 | when the first key among the prefixes has length k, the pointer stops at k |
| StreamDecoder.GreedyAppend | huffman/src/huffman/HuffmanUtilities.java:310-313 | decoding a concatenation carries the first part's leftover bits into the second, and once the sentinel is met later bits do not matter |
| StreamDecoder.SentinelFirst | huffman/src/huffman/HuffmanUtilities.java:326-328 | bits starting with the sentinel's code and no shorter key decode to nothing, with decoding stopped |
| StreamDecoder.WriteFile | huffman/src/huffman/HuffmanUtilities.java:298-352 | the nested loops, with pointer and carried bits across chunks, write exactly greedy decoding of all chunks joined |
| StreamDecoder.DecodeBits | huffman/src/huffman/HuffmanUtilities.java:317-345 | the inner loop writes the matches of the current bits and leaves either all unmatched bits or the sentinel's code behind |
| StreamDecoder.NoMatchExit | huffman/src/huffman/HuffmanUtilities.java:341-344 | running past the end without a match writes nothing and carries all bits over |
| StreamDecoder.SentinelExit | huffman/src/huffman/HuffmanUtilities.java:326-328 | a first match on the sentinel stops the output |
| StreamDecoder.MatchStep | huffman/src/huffman/HuffmanUtilities.java:329-336 | a first match on another character writes its low byte and decoding restarts after the code |
| StreamDecoder.PrefixFreeDistinct | huffman/src/huffman/HuffmanUtilities.java:171-182 | a prefix-free table has no code twice |
| StreamDecoder.GreedyOnCodes | huffman/src/huffman/HuffmanUtilities.java:317-340 | with a prefix-free table of non-empty codes, bits starting with a record's code decode that record's character first, or stop for the sentinel |
| Pipeline.EncodeWith | huffman/src/huffman/Encode.java:53-59 | the file for a tree starts with the low byte of its table's size and holds a header pair per record; its round trip and failure are stated by `Pipeline.RoundTrip` and `Pipeline.InteriorFails` |
| Pipeline.DecoderTable | huffman/src/huffman/Decode.java:59-65 | the decoder's table has one record per character read from the header |
| Pipeline.DecodeFile | huffman/src/huffman/Decode.java:57-69 | the decoder writes at most eight bytes per file byte |
| Pipeline.UpToSentinel | huffman/src/huffman/HuffmanUtilities.java:326-330 | the kept bytes are the low bytes of the input before its first 0x00, and stop exactly there |
| Pipeline.InputCoded | huffman/src/huffman/Encode.java:73-91 | every input character and the sentinel have a code in a table of the input's counts |
| Pipeline.EncodeSucceeds | huffman/src/huffman/Encode.java:45-60 | with a good tree of the input's counts the encoder writes a file without error |
| Pipeline.TableEncoding | huffman/src/huffman/HuffmanUtilities.java:357-418 | a decodable table of the counts yields a file whose header lists the table and whose payload unpacks to the framed codes |
| Pipeline.HeaderBytes | huffman/src/huffman/HuffmanUtilities.java:366-375 | characters below 256 and lengths up to 31 are written as themselves |
| Pipeline.RecoveredTable | huffman/src/huffman/Decode.java:59-63 | sorting and canonicalizing the recovered lengths rebuilds the encoder's codes |
| Pipeline.SortedIsStripped | huffman/src/huffman/Decode.java:61 | the sorted header records are the encoder's sorted records with placeholder codes |
| Pipeline.PairsOfSameRecords | huffman/src/huffman/Decode.java:91-99 | a map of one table's lengths also records those of a table with the same characters and lengths |
| Pipeline.DecoderGetsTable | huffman/src/huffman/Decode.java:57-65 | the decoder rebuilds exactly the encoder's table from the header |
| Pipeline.DecodeStream | huffman/src/huffman/HuffmanUtilities.java:298-352 | decoding the input's codes, the sentinel's code and any padding gives the input up to its first 0x00 |
| Pipeline.EmptyStream | huffman/src/huffman/HuffmanUtilities.java:326-328 | with no input left, decoding stops at the sentinel's code |
| Pipeline.StreamStep | huffman/src/huffman/HuffmanUtilities.java:324-336 | one character's code decodes to its low byte, or stops at 0x00 |
| Pipeline.UpToSentinelCons | huffman/src/huffman/HuffmanUtilities.java:326-330 | a character in front is kept unless it is 0x00, which ends the output |
| Pipeline.RoundTrip | huffman/src/huffman/Encode.java:45-60 | for a ready input, encoding succeeds and decoding the file gives the input's bytes up to its first 0x00 |
| Pipeline.RoundTripWhole | huffman/src/huffman/Encode.java:45-60 | a ready input without 0x00 comes back whole |
| Pipeline.UpToSentinelWhole | huffman/src/huffman/HuffmanUtilities.java:326-330 | byte-sized input without 0x00 is kept whole |
| Pipeline.InteriorFails | huffman/src/huffman/HuffmanUtilities.java:266 | an input containing 0x01 makes the encoder fail for want of a code |
| Pipeline.CodeListRecords | huffman/src/huffman/HuffmanUtilities.java:266-267 | the encoder's table has no record for 0x01 and no negative length |
| Pipeline.EmptyFile | huffman/src/huffman/Decode.java:108-114 | an empty file decodes to nothing |
| Pipeline.Encode | huffman/src/huffman/Encode.java:45-60 | the tree is a Huffman tree of the counts, reached by least-first merges; for a ready input the file decodes to the input up to its first 0x00; an input with 0x01 fails |
| Pipeline.EncodeOutcome | huffman/src/huffman/Encode.java:45-60 | a ready input round-trips and an input with 0x01 fails, for every tie choice of the builder |
| Pipeline.Decode | huffman/src/huffman/Decode.java:57-69 | the decoder's output is greedy decoding of the payload with the rebuilt table; an empty file gives nothing |
| Scenarios.OneLeaf | huffman/src/huffman/HuffmanUtilities.java:217-221 | a one-entry map starts the queue with that entry's leaf alone |
| Scenarios.TwoLeaves | huffman/src/huffman/HuffmanUtilities.java:217-221 | a two-entry map starts the queue with its two leaves, smaller character first |
| Scenarios.EmptyInputMap | huffman/src/huffman/Encode.java:73 | the empty input counts the sentinel once and nothing else |
| Scenarios.EmptyInputTree | huffman/src/huffman/HuffmanUtilities.java:214-247 | the sentinel's lone leaf is a Huffman tree of the empty input's counts, reached with no merges, and meets the round trip's conditions |
| Scenarios.EmptyTable | huffman/src/huffman/HuffmanUtilities.java:142-148 | the lone sentinel gets length 0 and the code "0" |
| Scenarios.EmptyEncoding | huffman/src/huffman/HuffmanUtilities.java:366-412 | the table of the sentinel alone writes the count 1, the pair (0, 0), and one zero byte |
| Scenarios.ZeroByte | huffman/src/huffman/HuffmanUtilities.java:397-412 | the one-bit code "0", padded, is written as the byte 0 |
| Scenarios.EmptyInputFile | huffman/src/huffman/Encode.java:45-60 | the empty input encodes to the bytes 1, 0, 0, 0, which decode to nothing |
| Scenarios.LetterInputMap | huffman/src/huffman/Encode.java:82-91 | the input "A" counts the sentinel and 'A' once each |
| Scenarios.LetterTreeBuilt | huffman/src/huffman/HuffmanUtilities.java:226-244 | the sentinel's and 'A''s leaves joined under one node form a Huffman tree of those counts, reached by one least-first merge |
| Scenarios.LetterFull | huffman/src/huffman/HuffmanUtilities.java:214-247 | the two leaves of "A" joined are a full tree with exactly the counts' leaves |
| Scenarios.LetterMerge | huffman/src/huffman/HuffmanUtilities.java:229-242 | joining the two leaves of "A" is a round that takes out two nodes of least frequency and puts their join back |
| Scenarios.OneRound | huffman/src/huffman/HuffmanUtilities.java:226-246 | a full tree reached from the leaves by one least-first round is a Huffman tree of the counts |
| Scenarios.LetterReady | huffman/src/huffman/HuffmanUtilities.java:214-247 | the input "A" with that tree meets the round trip's conditions |
| Scenarios.LetterRoundTrip | huffman/src/huffman/Encode.java:45-60 | the input "A" encodes without error and decodes back to "A" |

## Left out

- File and stream I/O are left out. Input is a sequence of characters and output a sequence of bytes.
- The UTF-8 decoding of the input by `InputStreamReader` is left out. The input is given as the Java `char` values it yields.
- I/O exceptions and the printing of stack traces are left out. `IOException`s and `printStackTrace` have no counterpart. The exceptions the encoder raises on bad data are `Failure` values, as described above. An encoding failure carries no bytes, though the Java writer leaves a partial file behind.
- The decoder's static `EOF` flag is left out, because nothing reads it.
- The `main` methods, the command-line arguments and the "DONE" message are left out.
- `Huffman`'s other constructors and accessors are left out, because the codec does not use them.
- TreeBuilder.HuffmanTree: states the tree's structure, its leaves and weights, and that every round merges two least nodes. It does not state that the code lengths are optimal. The code does not promise optimality beyond following the textbook algorithm.
- TreeBuilder.HuffmanTree: merged frequencies are unbounded. Java adds them in `int` (HuffmanUtilities.java:236), and that sum wraps once the input's total count passes 2^31 - 1, even when no single count wraps. The model's root then carries the true total where Java's is negative. A wrapped interior node would also be polled first, so Java's merges would no longer be least-first by the true counts. This is not modelled.
- TreeBuilder.Poll: ties between equal frequencies are resolved by an unspecified choice. The actual `PriorityQueue` heap order is not modelled.
- Frequency.ReadInputMap: counts are unbounded. The wrap-around of the Java `int` counter after 2^31 - 1 occurrences is not modelled.
- Canonical.CanonicalPrefixFree: proved only for lengths up to 31. This is a limit of the proof, not of the code. The proof counts the Kraft sum in fixed units of 2^-31, so it cannot speak of longer codes. In the code the counter never exceeds the record's index, so it fits an `int`. A drop of 32 or more between neighbouring lengths would need at least 2^31 leaves, so Java's masking of the shift count never applies.
- Pipeline.RoundTrip: holds only under its stated conditions, and gives back the input only up to its first 0x00. The conditions are:
  - a tree no deeper than 31;
  - characters below 256;
  - at most 127 distinct characters, counting the sentinel 0x00 (so at most 126 when the input holds no 0x00);
  - no 0x01 in the input.

  The depth condition is a limit of the proof (see Canonical.CanonicalPrefixFree), not a place where the code loses data. Outside the other three, the code loses data in the ways listed above.
