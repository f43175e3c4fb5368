# Huffman codec of `Texte`, modelled in Dafny

`main.cpp` holds a textbook Huffman codec inside the class `Texte`. This
project models the pure part of it:

- the tree node `Noeud` and the queue order `compare`;
- the tree builder `construireArbre`. It seeds a min-priority queue with one
  leaf per (symbol, frequency) pair. It then pops the two lightest trees,
  joins them under a node weighing their sum (first popped on the left),
  pushes the join back, and stops when one tree is left;
- the code generator `genererCodes`, a depth-first walk that writes each
  leaf's path ('0' left, '1' right) into the shared code table;
- the encoder `encoder`, which puts the codes of the text's characters
  together;
- the decoding walk at the end of `lireCodes`. A cursor starts at the root
  and moves left on '0' and right on any other character before the
  string's terminating NUL. On a leaf it emits the
  symbol and goes back to the root.

Modules, one per piece of the program:

| file | module | contents |
|---|---|---|
| `trees.dfy` | `Trees` | `Tree` (leaf or node with two children), well-formedness, leaf multiset, symbols, leaf paths |
| `builder.dfy` | `Builder` | the queue as a sequence, extraction of a minimum, one merge, the build loop, `BuildTree` |
| `codes.dfy` | `CodeTable` | `GenCodes`, `Codes`, prefix-freeness |
| `encoder.dfy` | `Encoder` | `Encode`, the entries `codes[ch]` inserts |
| `decoder.dfy` | `Decoder` | the walk as a function (`Walk`, `Decode`) and as the source's loop (`DecodeLoop`) |
| `huffman.dfy` | `Huffman` | the round trip, the one-symbol finding and its correction, the driver's scenario |

Modelling decisions:

- Frequencies are natural numbers, not `double`s.
- The priority queue is a sequence. `MinIndex` extracts its earliest
  minimum-weight tree. Every general property is proved from `MinIndex`'s
  contract only (it returns *a* minimum), so it holds for any tie order of
  `std::priority_queue`. The driver's weights never tie, so the scenario's
  tree does not depend on the tie order either.
- The source has undefined behaviour in two places. The model reports each
  as an error value instead:
  - `EmptyAlphabet`: `queue.top()` runs on an empty queue when there are no
    pairs (main.cpp:78).
  - `StepFromLeaf`: the decoder reads a child of a null pointer when the
    root is a leaf and there is at least one bit (main.cpp:150-154).
- `codes[ch]` in `encoder` inserts an empty entry for a character that has
  none. `Encode` reads such a character as the empty code.
  `TableAfterEncode` gives the table left behind.
- The decoder walks the in-memory tree. It never uses the table that
  `lireCodes` reloads from the file.

Behaviour of the code that the model keeps as written:

- A one-symbol alphabet gets the empty code (see Findings).
- `encoder` gives no bits for a character without a code.
- Bits that stop mid-code are dropped (`Huffman.TruncatedTail`).
- The decoder moves right on any character other than '0'
  (`Decoder.Walk`). Its input `bits` is the content of the C string read
  at main.cpp:143, up to but not including the terminating NUL, so the loop
  condition at main.cpp:149 is the end of `bits`. This holds when the saved
  encoding is non-empty; for an empty one see "Left out".

## Model

| member | source | states |
|---|---|---|
| `Trees.FullBinary` | main.cpp:70-72 | every tree has exactly one internal node fewer than it has leaves, and one leaf-multiset element per leaf |
| `Trees.LeafAtShape` | main.cpp:49-50 | a path that reaches a leaf labelled `s` is made of '0' and '1' only, `s` is a symbol of the tree, and the path is empty exactly when the tree is that leaf |
| `Trees.LeafPathsPrefixFree` | main.cpp:45-50 | of two leaf paths of one tree, one is a prefix of the other only if they are the same path to the same leaf |
| `Trees.LeafAtUnique` | main.cpp:45-50 | when no symbol labels two leaves, a symbol has at most one leaf path (`Codes` supplies one) |
| `Builder.MinIndex` | main.cpp:26-30 | the index picked holds a weight no greater than any other in the queue, and every earlier tree is strictly heavier (the earliest minimum) |
| `Builder.Top` | main.cpp:64 | `top()` returns a tree of the queue whose weight is no greater than any other tree's |
| `Builder.Pop` | main.cpp:65 | `pop()` leaves a queue one shorter whose multiset, with the top added back, is the original queue |
| `Builder.PopTotals` | main.cpp:64-67 | popping takes exactly the top's weight and leaves out of the queue's totals and keeps every remaining tree well formed |
| `Builder.Merge` | main.cpp:63-75 | one iteration shrinks the queue by exactly one tree, so the loop terminates |
| `Builder.MergeInvariants` | main.cpp:63-75 | one iteration keeps the total weight and the leaf multiset; the pushed node is last, weighs the sum of its two children, its left child is a minimum of the queue and its right child a minimum of what remained; the other trees are the unpopped ones; well-formedness of all trees is kept |
| `Builder.Build` | main.cpp:63-78 | the loop ends on one well-formed tree whose weight is the queue's total weight and whose leaves are the queue's leaves; the tree is a node when two or more trees were queued and the single queued tree otherwise |
| `Builder.SeedTotals` | main.cpp:58-60 | the initial queue weighs the sum of the frequencies and its leaves are exactly the input pairs |
| `Builder.BuildTree` | main.cpp:54-82 | an empty alphabet gives `EmptyAlphabet` and nothing else does; otherwise the root is well formed (each node weighs the sum of its children, lighter child left), weighs the total frequency, has the input pairs as its leaves with multiplicity and the input symbols as its symbols, and is an internal node exactly when there are two or more pairs |
| `CodeTable.GenCodes` | main.cpp:39-51 | after the walk every symbol of the subtree has an entry made of the accumulated prefix followed by a path to a leaf carrying that symbol; the table's keys grow by exactly the subtree's symbols; other entries are untouched |
| `CodeTable.Codes` | main.cpp:81 | the table built from the root has exactly the tree's symbols as keys and maps each to a root-to-leaf path that reaches a leaf carrying it |
| `CodeTable.CodesPrefixFree` | main.cpp:39-51 | the codes are strings of '0' and '1'; no code is a prefix of another symbol's code; every code is non-empty when the root is a node; a leaf root's symbol gets the empty code |
| `Encoder.Encode` | main.cpp:96-102 | the output is made of bits when the codes are; a text none of whose characters has an entry encodes to no bits; with non-empty codes for every character the output is at least as long as the text |
| `Encoder.EncodeAppend` | main.cpp:98-99 | the encoding of a concatenation is the concatenation of the encodings |
| `Encoder.EncodeLength` | main.cpp:98-99 | the encoding is exactly as long as the sum of the lengths of the characters' codes |
| `Encoder.EncodeEmptyCodes` | main.cpp:99 | with a table of empty codes every text encodes to no bits |
| `Encoder.TableAfterEncode` | main.cpp:99 | after encoding, the table's keys are the old keys plus the text's characters; old entries are kept and new ones are empty |
| `Encoder.EncodeWithEnlargedTable` | main.cpp:99 | the empty entries `codes[ch]` inserts never change a later encoding |
| `Decoder.Walk` | main.cpp:149-158 | from an internal cursor the walk emits at most one symbol per bit, and only symbols of the tree |
| `Decoder.Decode` | main.cpp:147-158 | decoding fails exactly when the root is a leaf and there are bits, and then with `StepFromLeaf`; otherwise the text is no longer than the bits and uses only the tree's symbols |
| `Decoder.DecodeLoop` | main.cpp:147-158 | the source's loop, with a mutable cursor and output, computes `Decode` |
| `Decoder.WalkCode` | main.cpp:149-157 | reading a whole leaf path from a cursor emits that leaf's symbol and continues from the root |
| `Decoder.WalkPartialCode` | main.cpp:149-158 | a proper prefix of a leaf path emits nothing |
| `Huffman.RoundTrip` | main.cpp:147-158 | for a root that is a node, decoding the encoding of any text over the tree's symbols gives the text back |
| `Huffman.TruncatedTail` | main.cpp:149-158 | bits that stop part-way through a code are dropped: the text before them still decodes exactly |
| `Huffman.HuffmanRoundTrip` | main.cpp:54-158 | for two or more pairs the tree exists, its table is prefix-free, each character takes at least one bit, and decode after encode gives the text back |
| `Huffman.SingleSymbolLosesText` | main.cpp:45-46 | as written, a one-pair alphabet builds a leaf root with the empty code, every text of that symbol encodes to no bits, and decoding does not give the text back |
| `Huffman.FixedCodes` | main.cpp:45-46 | the corrected table has the tree's symbols as keys, is prefix-free, and every code is a non-empty string of bits |
| `Huffman.FixedDecode` | main.cpp:147-158 | the corrected decoder always succeeds; under a leaf root it emits one symbol per bit |
| `Huffman.FixedRoundTrip` | main.cpp:45-46 | with the corrections, decode after encode gives back every text over the tree's symbols, a leaf root included |
| `Huffman.FixedHuffmanRoundTrip` | main.cpp:54-82 | with the corrections, every non-empty alphabet round-trips every text over its symbols |
| `Huffman.ScenarioBuild` | main.cpp:176-181 | the driver's pairs a:5 b:9 c:12 d:13 e:16 f:45 build the tree (f, ((c, d), ((a, b), e))) of weight 100 |
| `Huffman.ScenarioCodes` | main.cpp:181 | that tree's table is a=1100, b=1101, c=100, d=101, e=111, f=0 |
| `Huffman.ScenarioRoundTrip` | main.cpp:179-191 | "abcde" encodes to the 17 bits 1100 1101 100 101 111, and those bits decode to "abcde" |

## Left out

- File persistence: `sauvegarderCodes`, `sauvegarderTexteEncode` and the
  `fopen`/`fscanf` part of `lireCodes` (main.cpp:105-144) are C stdio I/O.
  The table reloaded there is never read by the decoder.
- The fixed buffers of `lireCodes` (`char code[256]`, `char
  texteEncode[1024]`): the model's bit strings are unbounded, so overflow of
  those buffers is not modelled.
- Printing and the driver: `afficherCodes` and `main` (main.cpp:89-93,
  175-194) are console output. The driver's data appears as the scenario
  lemmas.
- `double` frequencies (main.cpp:13, 70) are natural numbers. Floating-point
  rounding of sums is not modelled.
- Memory: `new`, `delete` and the destructor (main.cpp:59, 70, 170-172).
  The trees are immutable values.
- `std::priority_queue` internals: its heap layout and tie order. The model
  extracts the earliest minimum, and the general properties hold for any
  minimum.
- The character `'\0'` that `construireArbre` stores in internal nodes is
  never read. Internal nodes carry no symbol in the model.
- Calling `HuffmanCodes` twice on one `Texte`: the table is not cleared
  between builds, so old entries would survive. The model always starts the
  table empty (`Codes`).
- Reading back an empty encoding: `sauvegarderTexteEncode` then writes an
  empty file, `fscanf` at main.cpp:143 stops at end of file without writing
  to the uninitialised `char texteEncode[1024]`, and the loop at
  main.cpp:149 reads indeterminate bytes. The model decodes the empty bit
  string as "" (`Decoder.Decode`), which the program does not promise; this
  covers `Huffman.RoundTrip` and `Huffman.HuffmanRoundTrip` on the empty
  text and the one-symbol case of `Huffman.SingleSymbolLosesText`.
- Huffman optimality, and code lengths decreasing as weights grow: the code
  does not state them.
- Builder.Build: the model needs at least one queued tree. The empty queue
  is the `EmptyAlphabet` error, which `Builder.BuildTree` reports before
  building.

## Findings

| source | as written | input that shows it | evidently intended | confidence | as-written member | corrected member |
|---|---|---|---|---|---|---|
| main.cpp:45-46 | with one (symbol, frequency) pair the root is a leaf, and `genererCodes` stores the empty string as its code, so `encoder` turns any text into no bits and the text cannot be recovered; decoding non-empty bits from that root would follow a null child | `data = {'s'}`, `freq = {1}`, text "ss": the encoding is "", so the saved file is empty and main.cpp:143 leaves `texteEncode` unset | a leaf root gets the one-bit code "0", and each bit under a leaf root decodes to its symbol | not executed | `Huffman.SingleSymbolLosesText` | `Huffman.FixedHuffmanRoundTrip` |
