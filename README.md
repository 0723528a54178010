# Huffman coder

A Dafny model of the class `HuffmanCoding` in `Chapter6-7/huffman-coding.cpp`.
The coder works in four steps:

- `buildTree` counts the characters of a text into the member map `frequencies`.
- It then builds a Huffman tree by greedy merging in a min-priority queue.
- `generateCodes` writes every leaf's root-to-leaf path into the member map `codes`.
- `encode` concatenates codes, and `decode` walks the tree one bit at a time.

Modules, one per file:

- `HuffmanTree` (`tree.dfy`): the tree as a datatype `Leaf | Internal`, and the sum invariant `WellFormed`.
- `PriorityQueue` (`queue.dfy`): the queue as a sequence. `PopMin` takes out any node of least frequency.
- `GreedyMerge` (`greedy.dfy`): the greedy choice of the merge loop, recorded as a trace.
  - The trace holds the successive queue contents and the parent pushed in each round.
  - `IsHuffmanTree` is a code tree (`IsCodeTree`: full, sum invariant, lighter child left, one leaf per character) that such a run builds from the leaves of the table.
- `Frequencies` (`frequencies.dfy`): the counting loop.
- `TreeBuilder` (`build.dfy`): the leaf loop and the merge loop.
- `Codes` (`codes.dfy`): the code table and the encoding, as functions, with their properties.
- `Decoding` (`decoding.dfy`): the decoding walk, as a function, with its properties.
- `Huffman` (`huffman.dfy`): the class `HuffmanCoding` itself.
  - Its fields `root`, `codes` and `frequencies` are updated in place by `BuildTree` and `Encode`.
  - `GenerateCodes` is a recursive method that writes into `codes`.
  - `Decode` is the cursor loop.
  - Every method keeps the class invariant `Valid`.

The maps are never cleared. A second `BuildTree` therefore adds to the old counts, and the ghost field `counted` records every text counted so far. `Valid` states that:

- `frequencies` counts exactly `counted`;
- the tree is a Huffman tree for `frequencies`: a code tree that greedy merging of its leaves builds;
- the tree's root frequency is `|counted|`;
- `codes` holds `CodeOf` for every leaf character and "" for any other character it mentions.

The priority queue compares frequencies only, and `unordered_map` has no fixed iteration order. The model therefore picks leaves and minima with `:|`, and every property holds for every tie-break.

## Model

| member | source | states |
|---|---|---|
| HuffmanTree.InternalNodesCount | Chapter6-7/huffman-coding.cpp:62-70 | a tree with n leaves has n - 1 internal nodes, each with two children |
| HuffmanTree.FrequencyIsWeight | Chapter6-7/huffman-coding.cpp:66-68 | in a tree that keeps the sum invariant, a node's frequency is the number of counted characters below it (frequency conservation) |
| HuffmanTree.CodeTreeShape | Chapter6-7/huffman-coding.cpp:57-72 | a code tree for a table has one leaf per recorded character, no character twice, and \|table\| - 1 internal nodes |
| PriorityQueue.MinExists | Chapter6-7/huffman-coding.cpp:21-25 | a non-empty queue has a node whose frequency no other node undercuts, so `top` is defined |
| PriorityQueue.PopMin | Chapter6-7/huffman-coding.cpp:63-64 | `top`/`pop` returns a node of the queue with frequency <= every remaining node; the rest is the queue minus that node, as a multiset and in leaves and counted characters |
| Frequencies.CountFrequencies | Chapter6-7/huffman-coding.cpp:49-51 | after the loop every character's count is its old count plus its number of occurrences in the text; the keys are the old keys plus the text's characters |
| Frequencies.CountsExtend | Chapter6-7/huffman-coding.cpp:49-51 | counting a text into a table that counts `s` gives the table that counts `s + text`: a repeated call adds to the old counts |
| TreeBuilder.MakeLeaves | Chapter6-7/huffman-coding.cpp:57-59 | the queue gets one leaf per recorded character, carrying that character's count, in any order: as a multiset it is exactly `Leaf(c, freq[c])` for each key |
| TreeBuilder.LeafQueueAdded | Chapter6-7/huffman-coding.cpp:58 | pushing the leaf of one more character adds exactly that leaf to the queue of leaves |
| TreeBuilder.PushLeaf | Chapter6-7/huffman-coding.cpp:57-59 | one round of the leaf loop keeps the queue's leaves valid, one per character pushed, each with its count |
| TreeBuilder.ParentKeepsInvariant | Chapter6-7/huffman-coding.cpp:66-68 | a parent whose frequency is the sum of its children's, with the lighter child on the left, keeps the sum invariant and the ordering |
| TreeBuilder.MergeStep | Chapter6-7/huffman-coding.cpp:63-69 | one merge round keeps every node valid and keeps the queue's leaves and counted characters |
| TreeBuilder.GreedyPops | Chapter6-7/huffman-coding.cpp:63-69 | the two pops of a round take a lightest node, then a lightest node of the rest, and the pushed parent replaces them: the round is a `GreedyStep` |
| TreeBuilder.MergeAll | Chapter6-7/huffman-coding.cpp:62-72 | the merge loop ends with one tree that keeps the sum invariant, has left <= right at every parent, and holds exactly the queue's leaves and counted characters; it is the end of a greedy run from the queue, every round merging a lightest node and a lightest node of the rest |
| TreeBuilder.BuiltTree | Chapter6-7/huffman-coding.cpp:54-72 | the merged tree is a Huffman tree for the table (a code tree built by a greedy run from the table's leaves), and its root frequency is the number of characters counted |
| TreeBuilder.BuildHuffmanTree | Chapter6-7/huffman-coding.cpp:54-72 | from a non-empty table, a Huffman tree for the table, built by greedy merging of its leaves, whose root frequency is the total count |
| GreedyMerge.TraceExtend | Chapter6-7/huffman-coding.cpp:62-70 | a greedy trace extended by one greedy round is a greedy trace |
| GreedyMerge.Survives | Chapter6-7/huffman-coding.cpp:63-69 | a node in the queue after a round, other than the new parent, was there before and was not popped |
| GreedyMerge.TracePositive | Chapter6-7/huffman-coding.cpp:66-68 | merging nodes of positive weight keeps every queued weight positive |
| GreedyMerge.ParentsNonDecreasing | Chapter6-7/huffman-coding.cpp:62-69 | each round merges a pair no lighter than the pair merged in the round before |
| GreedyMerge.LeafPersists | Chapter6-7/huffman-coding.cpp:62-69 | leaves are only popped, never pushed, so a leaf in a later queue was in every earlier one |
| GreedyMerge.SurvivorNotLighter | Chapter6-7/huffman-coding.cpp:62-69 | a leaf still waiting in the queue is no lighter than either child of any parent built before |
| GreedyMerge.BuiltBy | Chapter6-7/huffman-coding.cpp:66-69 | an internal node in a queue that was not in the first one is the parent pushed by an earlier round |
| GreedyMerge.RootIsLastParent | Chapter6-7/huffman-coding.cpp:69-72 | when at least one round ran, `pq.top()` at the end is the last parent pushed |
| GreedyMerge.SkewedNotBuilt | Chapter6-7/huffman-coding.cpp:62-69 | no greedy run from four leaves of count 1 ends in the tree that gives 'a' a 1-bit code and 'd' a 3-bit code |
| GreedyMerge.SkewedTreeNotGreedy | Chapter6-7/huffman-coding.cpp:62-69 | that tree is a code tree for the four counts but not a Huffman tree: `IsHuffmanTree` records the greedy choice, not just the shape |
| Codes.PathIn | Chapter6-7/huffman-coding.cpp:42-43 | the path of a leaf below an internal node is non-empty |
| Codes.CodeTableKeys | Chapter6-7/huffman-coding.cpp:34-44 | the traversal writes a code for every leaf character and for nothing else |
| Codes.CodeTablePaths | Chapter6-7/huffman-coding.cpp:34-44 | with distinct leaves, the code written for a leaf is the prefix followed by its root-to-leaf path ('0' left, '1' right), or "0" for a lone root leaf |
| Codes.GeneratedCodes | Chapter6-7/huffman-coding.cpp:37-43 | `generateCodes(root, "")` gives every leaf character exactly one code, `CodeOf`, which is non-empty, and gives no code to anything else |
| Codes.PathsPrefixFree | Chapter6-7/huffman-coding.cpp:42-43 | paths to two different leaf characters: neither is a prefix of the other |
| Codes.CodesPrefixFree | Chapter6-7/huffman-coding.cpp:37-43 | the generated code table is prefix-free and every code in it is non-empty |
| Codes.WithBlanksKeepsCodes | Chapter6-7/huffman-coding.cpp:82 | reading `codes[c]` for a text adds exactly the text's characters as keys and changes no code (a missing one reads "") |
| Codes.EncodeAppend | Chapter6-7/huffman-coding.cpp:81-83 | encoding one more character appends its code |
| Codes.EncodePrefix | Chapter6-7/huffman-coding.cpp:81-83 | encoding the first i + 1 characters appends the (i+1)-th character's code to the encoding of the first i |
| Codes.EncodeConcat | Chapter6-7/huffman-coding.cpp:79-85 | the encoding of a concatenation is the concatenation of the encodings |
| Codes.EncodedLength | Chapter6-7/huffman-coding.cpp:79-85 | the encoding's length is the sum, over the distinct characters, of frequency times code length |
| Codes.EncodingNotShorter | Chapter6-7/huffman-coding.cpp:79-85 | when every character has a non-empty code, the encoding has at least one bit per character |
| Decoding.PathWalk | Chapter6-7/huffman-coding.cpp:92-98 | following a leaf's path emits that leaf's character and returns the cursor to the root |
| Decoding.DecodeFirst | Chapter6-7/huffman-coding.cpp:92-98 | decoding starts by emitting the first character of an encoded text |
| Decoding.DecodeEncodePrefix | Chapter6-7/huffman-coding.cpp:88-102 | decoding an encoding followed by more bits gives the text and then what the remaining bits decode to |
| Decoding.RoundTrip | Chapter6-7/huffman-coding.cpp:88-102 | with an internal root and the tree's paths as codes, decoding the encoding of a text over the tree's characters gives the text |
| Decoding.IncompletePathSilent | Chapter6-7/huffman-coding.cpp:92-98 | a walk that stops part-way down a leaf's path emits nothing |
| Decoding.TrailingIncompleteDropped | Chapter6-7/huffman-coding.cpp:92-101 | an encoding followed by a proper prefix of a code decodes to the text alone: the incomplete code is dropped silently |
| Decoding.AsBits | Chapter6-7/huffman-coding.cpp:93 | maps every character other than '0' to '1', position by position |
| Decoding.NonZeroIsRight | Chapter6-7/huffman-coding.cpp:93 | decoding treats any character other than '0' as a step to the right |
| Decoding.DecodedNotLonger | Chapter6-7/huffman-coding.cpp:92-101 | at most one character is emitted per bit, since reaching a leaf takes at least one step |
| Huffman.HuffmanCoding.constructor | Chapter6-7/huffman-coding.cpp:27-31 | a new coder has no tree and empty maps, and is valid |
| Huffman.HuffmanCoding.GenerateCodes | Chapter6-7/huffman-coding.cpp:34-44 | the code map after the traversal is the old map overwritten by `CodeTable(node, code)` |
| Huffman.CountAndBuild | Chapter6-7/huffman-coding.cpp:49-72 | the new counts are the old counts plus the text's, and the new tree with the old code map updated by its codes is a valid coder state for all text counted |
| Huffman.Rebuilt | Chapter6-7/huffman-coding.cpp:47-76 | after a rebuild, overwriting the codes of the new tree's characters leaves the code map agreeing with the new tree, because the old characters are all still leaves |
| Huffman.HuffmanCoding.BuildTree | Chapter6-7/huffman-coding.cpp:47-76 | keeps `Valid`: the counts include the new text, the tree is a Huffman tree (built by greedy merging) with root frequency \|counted\|, and the codes agree with it; the code map is the old one overwritten by the new tree's codes |
| Huffman.EncodeKeepsCodes | Chapter6-7/huffman-coding.cpp:82 | adding "" entries for uncoded characters keeps the code map in agreement with the tree |
| Huffman.HuffmanCoding.Encode | Chapter6-7/huffman-coding.cpp:79-85 | the result is the concatenation of the codes of the text's characters, "" for a character without one; the code map gains a "" entry for each such character; `Valid` is kept |
| Huffman.HuffmanCoding.Decode | Chapter6-7/huffman-coding.cpp:88-102 | the result is the walk of the encoded string from the root (empty without a tree) |
| Huffman.BuiltFromText | Chapter6-7/huffman-coding.cpp:47-76 | a coder built from a text with two distinct characters has an internal root, whose leaves cover the text and whose codes are the leaves' paths |
| Huffman.CompressAndRestore | Chapter6-7/huffman-coding.cpp:123-137 | building, encoding and decoding a text with two distinct characters gives back the text, in at least one bit per character |

## Left out

- The console output of `printCodes` and of `main` (lines 104-142).
- `printCodes` also changes the coder: line 110 reads `frequencies[p.first]` for every key of `codes`, and `operator[]` inserts a count of 0 for a character that `encode` gave an empty code. A later `buildTree` then pushes a leaf of count 0 for it (line 58) and gives it a code. This is not modelled: the model's tables hold only positive counts, of characters counted by `BuildTree`.
- The compression ratio (line 134): floating-point arithmetic.
- Heap allocation, and the nodes that are never deleted (lines 58, 66): the datatype `Node` replaces the pointers.
- The overflow of a 32-bit `int` count: counts are unbounded integers.
- The exact tie-break order of `priority_queue` and of `unordered_map` iteration: the model allows every order, so no exact bit string is fixed.
- The `if (!node) return;` guard (line 35): every node the coder builds has either no children or two, so the guard never fires.
- The uninitialised `root` of a new coder: it is modelled as `None`.
- Huffman.HuffmanCoding.BuildTree: requires a non-empty text or earlier counts. Otherwise the queue is empty and `pq.top()` (line 72) is undefined.
- Huffman.HuffmanCoding.Decode: requires an internal root whenever the input is non-empty.
  - With a single distinct character the root is a leaf, and line 93 follows a null child pointer, so decoding is undefined there.
  - Before any `BuildTree` the source's `root` is uninitialised, so decoding non-empty input then is undefined too.
- Huffman.CompressAndRestore: requires two distinct characters, for the same reason. A one-character alphabet encodes to one "0" per character but cannot be decoded.
- Characters are Dafny `char` values (Unicode scalars), while the source's `std::string` holds bytes: there a non-ASCII character is counted and coded byte by byte. Nothing in the model depends on the alphabet, so it reads as the byte alphabet.
- Byte packing, bit-length headers and a container format: the coder keeps its output as a string of '0' and '1' characters.
- The source reports no error for empty input, non-binary bits or truncated codes. It reads any non-'0' as a right step and drops a trailing incomplete code, and the model does the same.
- `Chapter25/Lab25-2.cpp` is not part of this model: it only prints, and computes in floating point.
