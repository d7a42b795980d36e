# Huffman encoder/decoder, modelled in Dafny

This project models `HuffmanEncoderDecoder.java`, a Huffman coder trained on a sample string. It has four parts.

- **Frequency counting** (`Frequency`). The constructor folds the training string into a map from each character to its number of occurrences.
- **Tree construction** (`Tree`). `initializeHuffmanEncoderDecoder` works in two steps:
  - it puts one leaf per key into a priority queue ordered by `Node.compareTo`, which compares weight first and then the creation id;
  - it then repeatedly removes two least nodes and adds their parent. The parent gets the summed weight and a fresh id. The node that remains is the root.
- **Code tables** (`CodeTable`). `setUpMaps` walks the tree from the prefix `"0"`. It appends `'0'` going left and `'1'` going right, and writes each leaf's path into `encoder` and `decoder`.
- **Codec** (`Codec`, and the class in `Huffman`):
  - the per-character operations `getFrequencyForCharacter`, `encodeCharacter` and `decodeCharacter`;
  - `encodeString`;
  - `decodeString`, which scans its input with a growing window.

Modelling choices:

- `Huffman.HuffmanEncoderDecoder` is a class with the source's four fields. The constructor, `InitializeHuffmanEncoderDecoder` and `SetUpMaps` update those fields. The two loops of `initializeHuffmanEncoderDecoder` are the methods `Tree.QueueLeaves` and `Tree.MergeQueue`, one turn of the second being `Tree.MergeTwoLeast`. `EncodeString` and `DecodeString` keep the source's loops.
- Each method is proved against a specification function:
  - `CountFrequencies` against the occurrence counts of the training string;
  - the construction loop against `Tree.HuffmanTree`;
  - `SetUpMaps` against `CodeTable.EncoderOf` and `CodeTable.DecoderOf`;
  - `EncodeString` against `Codec.Encode`;
  - `DecodeString` against `Codec.Decode`.
- The properties are lemmas about those functions. The object invariant `Valid()` ties the fields to those functions, and the lemma `ValidFacts` derives from it the properties of the tables.
- The hash map's key iteration order is the constructor parameter `keyOrder`. This order decides the leaf ids and therefore how ties are broken.
- The priority queue is a sequence. `remove()` is the method `Tree.RemoveMin`, which takes the entry that `compareTo` puts first; `add` appends. `Tree.PopMin` is the same removal as a function, and the specification function `Tree.MergeStep` is built from it.

`decodeString` is specified by `Codec.DecodeScan(decoder, s, pending)`, a scan that carries the pending window:

- a character other than `'0'` and `'1'` is emitted as itself and drops the window;
- a bit extends the window, and the window is emitted as soon as it is a code;
- a window left over at the end is dropped.

The loop ends because no code is empty: every code starts with `'0'`.

The round trip `decodeString(encodeString(s)) == s` holds when every character of `s` was trained or is not a bit. An untrained bit character breaks the round trip, because the encoder passes it through and the decoder then reads it as a bit:

- an untrained `'0'` joins the window and can complete a code. Trained on `"aaaa"`, the input `"0"` comes back as `"a"` (`Huffman.HuffmanEncoderDecoder.UntrainedZeroMisdecoded`);
- an untrained `'1'` that arrives with an empty window never completes a code, since every code starts with `'0'`. The window is empty at the start of the input, right after a decoded code and right after a character that is not a bit. From there the `'1'` and every bit after it, up to the next character that is not a bit, decode to nothing (`Codec.UntrainedOneDropsRun`, stated for the scan with an empty window);
- an untrained `'1'` that follows an untrained `'0'` lands in a non-empty window and can complete a code. With the codes `a = "00"` and `b = "01"`, the input `"0100"` decodes to `"ba"` (`Codec.UntrainedOneAfterZero`).

## Model

| member | source | states |
|---|---|---|
| Frequency.CountFrequencies | HuffmanEncoderDecoder.java:30-48 | the keys of the table are exactly the characters of the training string, each mapped to its number of occurrences, which is at least 1 |
| Frequency.TotalCount | HuffmanEncoderDecoder.java:30-48 | when each character of the string is listed once among the keys, the counts of the keys add up to the string's length |
| Tree.CompareTo | HuffmanEncoderDecoder.java:302-309 | compareTo is negative, zero or positive exactly when the first node's (weight, id) is lexicographically below, equal to or above the second's |
| Tree.CompareToStrictOnQueue | HuffmanEncoderDecoder.java:71-91 | with the distinct ids the counter hands out, two different queue entries never tie, and precedence is transitive |
| Tree.MinIndex | HuffmanEncoderDecoder.java:83-84 | `pq.remove()` takes a position in the queue whose entry no other entry precedes |
| Tree.WithoutMultiset | HuffmanEncoderDecoder.java:83-84 | removing an entry leaves the queue's other entries |
| Tree.PopMinFacts | HuffmanEncoderDecoder.java:83-84 | the removed head comes from the queue, no entry precedes it, and the queue left behind holds exactly the other entries |
| Tree.RemoveMin | HuffmanEncoderDecoder.java:83-84 | `pq.remove()` returns an entry of the queue that no other entry precedes and leaves the other entries in the queue |
| Tree.PopMinTotals | HuffmanEncoderDecoder.java:83-84 | removing the head takes exactly its weight, its leaves and its nodes out of the queue totals |
| Tree.PopMinDistinctIds | HuffmanEncoderDecoder.java:83-84 | removing the head keeps the queue's ids distinct and below the counter |
| Tree.PopMinUnique | HuffmanEncoderDecoder.java:83-84 | with distinct ids, the removed head strictly precedes every entry left behind, so it is the only least entry |
| Tree.DistinctIdsHeadsUnique | HuffmanEncoderDecoder.java:81-92 | from a queue with distinct ids below the counter, every removal of the merge loop takes the only least entry |
| Tree.ConstructionHeadsUnique | HuffmanEncoderDecoder.java:71-92 | started from the leaf queue, every removal of the construction loop takes the only least entry |
| Tree.MergeStepTakesTwoLeast | HuffmanEncoderDecoder.java:81-92 | one loop turn takes out the least entry (left) and then the least remaining one (right); it keeps the other entries and adds one internal parent that weighs left plus right and has the current id |
| Tree.TotalsConcat | HuffmanEncoderDecoder.java:81-92 | the queue's total weight, leaves and node count add up over concatenation |
| Tree.TotalsWithout | HuffmanEncoderDecoder.java:83-84 | removing an entry removes exactly its weight, its leaves and its nodes from the queue totals |
| Tree.MergeStepWeight | HuffmanEncoderDecoder.java:81-92 | a loop turn keeps the total weight of the queue |
| Tree.MergeStepLeaves | HuffmanEncoderDecoder.java:81-92 | a loop turn keeps the characters held by the queue |
| Tree.MergeStepSize | HuffmanEncoderDecoder.java:81-92 | a loop turn creates exactly one node |
| Tree.MergeTurn | HuffmanEncoderDecoder.java:81-92 | after one loop turn, merging the rest of the queue with the next id leaves the same root as merging the queue before the turn |
| Tree.MergeStepWellFormed | HuffmanEncoderDecoder.java:86-89 | a loop turn keeps every queue entry weighing the sum of its children |
| Tree.MergeStepDistinctIds | HuffmanEncoderDecoder.java:86-91 | a loop turn keeps the ids distinct and below the counter |
| Tree.MergeTwoLeast | HuffmanEncoderDecoder.java:83-91 | one loop turn leaves exactly `Tree.MergeStep(q, id)`: the two least entries removed, the first as left child, and their parent appended; the queue shrinks by one and still merges to the same root |
| Tree.MergeQueue | HuffmanEncoderDecoder.java:80-92 | the construction loop ends with the node that merging the queue from the first free id describes |
| Tree.MergeFacts | HuffmanEncoderDecoder.java:80-99 | the node left by the loop weighs the whole queue, holds all of its leaves, adds one node per merge, and is well formed when the queue entries are |
| Tree.SizeOfFullTree | HuffmanEncoderDecoder.java:86-88 | a tree whose internal nodes always have both children has 2n - 1 nodes for n leaves |
| Tree.InitialQueueEntries | HuffmanEncoderDecoder.java:73-78 | the i-th queued leaf holds the i-th key, its count and id i |
| Tree.InitialQueueTotals | HuffmanEncoderDecoder.java:73-78 | the leaf queue has one node per key and holds exactly the keys as leaves |
| Tree.InitialQueueShape | HuffmanEncoderDecoder.java:73-78 | adds to the per-entry fact of `Tree.InitialQueueEntries` the queue's totals (one node per key, the keys as its leaves) and ids that are distinct and below the number of keys |
| Tree.QueueLeaves | HuffmanEncoderDecoder.java:71-78 | the key loop queues one leaf per key, in key order, each with its count and the next id, and leaves the counter at the number of keys |
| Tree.InitialQueueWeight | HuffmanEncoderDecoder.java:73-78 | the leaf queue weighs the sum of the keys' counts and holds leaves only |
| Tree.KeyOrderLength | HuffmanEncoderDecoder.java:73 | the key iteration visits as many keys as the map has |
| Tree.KeyOrderInMap | HuffmanEncoderDecoder.java:73-76 | every key visited is in the frequency map |
| Tree.RootWeight | HuffmanEncoderDecoder.java:71-99 | the root is well formed and weighs the length of the training string |
| Tree.RootLeaves | HuffmanEncoderDecoder.java:71-99 | the root holds every trained character in exactly one leaf and no other character, and has 2k - 1 nodes |
| Tree.HuffmanTreeFacts | HuffmanEncoderDecoder.java:58-106 | there is no root exactly when the training string is empty; otherwise the root is well formed, weighs the training length, holds each trained character once and has 2k - 1 nodes for k distinct characters |
| CodeTable.CodesExtendPrefix | HuffmanEncoderDecoder.java:115-139 | every code written from a prefix is that prefix followed by bits |
| CodeTable.EncoderDomain | HuffmanEncoderDecoder.java:123-127 | the characters that get a code are exactly the characters at the leaves |
| CodeTable.SidesDiffer | HuffmanEncoderDecoder.java:118-138 | codes below the left child carry '0' right after the prefix and codes below the right child carry '1', so neither is a prefix of the other |
| CodeTable.CodesPrefixFree | HuffmanEncoderDecoder.java:115-139 | no code written by the walk is a prefix of another |
| CodeTable.CodesInverse | HuffmanEncoderDecoder.java:123-127 | with each character in one leaf, the two tables are inverse: each character's code maps back to it, and each code's character has that code |
| CodeTable.CodeLength | HuffmanEncoderDecoder.java:115-139 | a leaf character's code is the prefix plus one bit per edge down to the leaf |
| CodeTable.CodesFromZero | HuffmanEncoderDecoder.java:115-139 | walked from "0", every code is a non-empty bit string starting with '0', and each leaf character's code is one longer than its depth |
| CodeTable.SingleLeafCode | HuffmanEncoderDecoder.java:101-105 | a root that is a single leaf gets the code "0" |
| Codec.EncodeBits | HuffmanEncoderDecoder.java:208-217 | encoding characters that all have bit codes gives bits only |
| Codec.EncodeSnoc | HuffmanEncoderDecoder.java:212-215 | encoding one more character appends its encoding |
| Codec.DecodeScanLength | HuffmanEncoderDecoder.java:231-249 | the scan emits at most one character per input character |
| Codec.ScanCode | HuffmanEncoderDecoder.java:241-247 | bits that complete the window to a code, with no code reached earlier, emit that code's character, and the scan goes on with an empty window |
| Codec.ScanNoMatch | HuffmanEncoderDecoder.java:241-248 | bits that never complete the window to a code emit nothing |
| Codec.NoEarlierCode | HuffmanEncoderDecoder.java:241-247 | in a prefix-free table no proper prefix of a code is a code, so the window does not stop early |
| Codec.DecodeSymbol | HuffmanEncoderDecoder.java:225-251 | decoding one character's encoding followed by anything gives the character followed by the decoding of the rest |
| Codec.DecodeEncode | HuffmanEncoderDecoder.java:225-251 | decoding the encoding of s followed by anything gives s followed by the decoding of the rest |
| Codec.RoundTrip | HuffmanEncoderDecoder.java:225-251 | with inverse prefix-free tables, decoding an encoding returns the input when its characters are coded or are not bits |
| Codec.TrailingWindowDropped | HuffmanEncoderDecoder.java:241-248 | a cut-short code at the end of the input is dropped silently |
| Codec.NonBitSplits | HuffmanEncoderDecoder.java:233-240 | a non-bit character is emitted as itself and cuts the input into two parts decoded separately; the pending window before it is dropped |
| Codec.NonBitRunSplits | HuffmanEncoderDecoder.java:233-240 | a non-empty run of non-bit characters is emitted as it is and cuts the input into two parts decoded separately |
| Codec.DriverPassthrough | HuffmanEncoderDecoder.java:327 | for the driver's input "011Jas01011on", the letters pass through and the two bit runs are decoded on their own |
| Codec.UntrainedOneDropsRun | HuffmanEncoderDecoder.java:241-248 | with codes that all start with '0', a '1' that meets an empty window, followed by any bits, decodes to nothing |
| Codec.UntrainedOneAfterZero | HuffmanEncoderDecoder.java:241-248 | a '1' that meets the window "0" completes the code "01": with a = "00" and b = "01", "0100" decodes to "ba" |
| Huffman.NonBitStep | HuffmanEncoderDecoder.java:234-240 | the non-bit branch of the decoding loop emits the character and leaves the scan from the next position with an empty window |
| Huffman.CodeStep | HuffmanEncoderDecoder.java:242-247 | the match branch of the decoding loop emits the code's character and leaves the scan from the next position with an empty window |
| Huffman.GrowStep | HuffmanEncoderDecoder.java:248 | the no-match branch of the decoding loop grows the window by the current bit |
| Huffman.HuffmanEncoderDecoder.constructor | HuffmanEncoderDecoder.java:24-51 | after construction the object invariant holds: the frequency table of the training string, its tree and the tables derived from the tree |
| Huffman.HuffmanEncoderDecoder.InitializeHuffmanEncoderDecoder | HuffmanEncoderDecoder.java:58-106 | the frequency table is unchanged; the root is the tree built by the two loops, or the previous root when there are no keys; the tables are those of the root; a call on an object that satisfies the invariant keeps it |
| Huffman.HuffmanEncoderDecoder.SetUpMaps | HuffmanEncoderDecoder.java:115-139 | the tables gain exactly the codes of the leaves below `here`, with paths extending `current`; the other fields are unchanged |
| Huffman.HuffmanEncoderDecoder.ValidFacts | HuffmanEncoderDecoder.java:115-139 | the coded characters are exactly the trained ones; codes start with '0', are bit strings and are prefix-free; the two tables are inverse |
| Huffman.HuffmanEncoderDecoder.GetFrequencyForCharacter | HuffmanEncoderDecoder.java:148-157 | returns the number of occurrences in the training string, which is 0 exactly for untrained characters |
| Huffman.HuffmanEncoderDecoder.EncodeCharacter | HuffmanEncoderDecoder.java:165-177 | an untrained character becomes itself; a trained one becomes a bit code starting with '0' that the decoder maps back to it |
| Huffman.HuffmanEncoderDecoder.DecodeCharacter | HuffmanEncoderDecoder.java:186-200 | a code gives its trained character, whose code it is; otherwise a one-character string gives its character and anything else the character 0 |
| Huffman.HuffmanEncoderDecoder.CharacterRoundTrip | HuffmanEncoderDecoder.java:165-200 | decoding a character's encoding returns it when it is trained or is not a bit |
| Huffman.HuffmanEncoderDecoder.EncodeString | HuffmanEncoderDecoder.java:208-217 | the result is the concatenation, in order, of the characters' encodings |
| Huffman.HuffmanEncoderDecoder.DecodeString | HuffmanEncoderDecoder.java:225-251 | the loop over the two indices i and j terminates and returns the window scan of its input |
| Huffman.HuffmanEncoderDecoder.StringRoundTrip | HuffmanEncoderDecoder.java:208-251 | decodeString(encodeString(s)) == s when every character of s is trained or is not a bit |
| Huffman.HuffmanEncoderDecoder.SentenceRoundTrip | HuffmanEncoderDecoder.java:317-321 | trained on the driver's alphabet string, "Jason is bored." survives encoding and decoding |
| Huffman.HuffmanEncoderDecoder.EmptyTraining | HuffmanEncoderDecoder.java:101-105 | an empty training string leaves no root and empty tables: every frequency is 0 and every character encodes as itself |
| Huffman.HuffmanEncoderDecoder.RepeatedSymbol | HuffmanEncoderDecoder.java:101-105 | trained on "aaaa", 'a' gets the one-bit code "0" and "aaa" survives the round trip |
| Huffman.HuffmanEncoderDecoder.UntrainedZeroMisdecoded | HuffmanEncoderDecoder.java:169-172 | trained on "aaaa", the untrained '0' is encoded as itself and decodes to "a" |
| Huffman.HuffmanEncoderDecoder.LeadingUntrainedOneDropped | HuffmanEncoderDecoder.java:169-172 | an untrained '1' is encoded as itself; at the start of the input, where the window is empty, it and any bits after it decode to nothing |
| Huffman.HuffmanEncoderDecoder.SingleSymbol | HuffmanEncoderDecoder.java:95-105 | with one distinct character the root is its leaf, weighing the training length, and the tables hold only the code "0" |

## Left out

- `main` (HuffmanEncoderDecoder.java:313-330) is a commented-out console driver. Its first scenario is `SentenceRoundTrip`. Its second decoding input is `DriverPassthrough`, stated for any table. The concrete output of the second scenario depends on the hash map's key order, which is not fixed here.
- Huffman.HuffmanEncoderDecoder.constructor: takes the key iteration order as a second parameter. It requires that order to list each distinct training character once. The source leaves this order to `HashMap` (HuffmanEncoderDecoder.java:73), and the model leaves it open.
- The `PriorityQueue`'s heap is not modelled; the queue is a sequence. `remove()` takes the first entry that no other precedes. Every removal the construction loop makes takes the only least entry (`Tree.ConstructionHeadsUnique`), as the heap does.
- The `instanceof` fallback of `compareTo` (HuffmanEncoderDecoder.java:293-300) is not modelled: the queue only ever holds nodes.
- Tree.CompareTo: subtracts unbounded integers where Java subtracts `int`s. The Java subtraction cannot wrap: weights lie between 1 and the training length, which is at most 2^31-1, ids lie below twice the number of keys, and the difference of two non-negative `int`s always fits in an `int`. Counts, weights and ids are `nat` throughout.
- Huffman.HuffmanEncoderDecoder.InitializeHuffmanEncoderDecoder: does not state the number of loop turns. The k - 1 turns show up as the k - 1 internal nodes of a tree of 2k - 1 nodes (`Tree.HuffmanTreeFacts`).
- Optimality of the code (minimum weighted length) and weight-versus-length monotonicity are not modelled. The code neither states nor checks them.
- `Node`'s `null` children are not modelled: the datatype gives every internal node both children. `setUpMaps` (HuffmanEncoderDecoder.java:129-138) recurses into both children at every internal node. An internal node with exactly one child, which those null checks would allow for, never occurs.
- Java strings are UTF-16 code units, and `concat` allocates. Here characters are Dafny `char` and strings are `seq<char>`.
