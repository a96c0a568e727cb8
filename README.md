# Huffman code tree, modelled in Dafny

This project models the class `HuffmanCode` of the Huffman-Encoding
repository. It covers four parts:

- building a Huffman code tree from a table of symbol frequencies;
- saving the tree as (symbol, route) records;
- loading a tree back from such records;
- decoding a bit sequence with the tree.

Each part is proved against a specification.

Modules, in dependency order:

- `HuffmanTree` (`tree.dfy`): the nested class `HuffmanNode` as a datatype
  `Null | Node(data, frequency, zeroLeft, oneRight)`.
  - `Null` stands for a null reference, and a node whose two children are
    both `Null` is a leaf.
  - It holds the node's two constructors (`NewLeaf`, `Merge`) and
    `compareTo` (`CompareTo`).
  - It also defines walking a route (`Follow`), the full-tree predicate
    (`Full`) and the multiset of leaf symbols (`LeafSymbols`).
- `Builder` (`builder.dfy`): the frequency constructor.
  - The priority queue is a sequence of trees whose order carries no
    meaning.
  - `remove()` is `RemoveMin`, which takes out some tree whose `compareTo`
    against every other tree in the queue is not positive.
  - `LeafQueue` is the first loop; `BuildTree` is the whole constructor.
  - `BuildTree` keeps the invariant `QueueInvariant`: every queued tree is
    `WellWeighted`, and its leaves carry their own index's frequency
    (`LeafWeights`). Together the trees hold exactly the positive symbols
    and their total weight.
  - It also keeps track of the first round's greedy choice. The finished
    tree contains that `LightestPair`: a lightest leaf as zero child and a
    lightest other leaf as one child.
  - The final `remove()` on an empty queue, which throws, is the result
    `Failure(EmptyQueue)`.
- `Codec` (`codec.dfy`): serialisation.
  - The private `save` is the pure function `SaveFrom`, and the public
    `save` is `Save`.
  - `readHelper` is `ReadHelper`.
  - The Scanner constructor's loop is the fold `LoadFrom` / `Load`.
  - Lemmas give the properties of the saved records: one record per leaf,
    routes that lead to their leaves, pre-order, prefix-free, complete.
  - They also give the round trip `RoundTrip`: loading what was saved gives
    back the tree with its frequencies and branch symbols zeroed (`Strip`).
    This is exactly what `readHelper` creates.
- `Decoder` (`decoder.dfy`): the cursor state machine of `translate` as the
  function `Run`, with the measure `2 * bits left + (cursor is a leaf ? 1 : 0)`.
  - It also holds the encoder that the saved records define (`CodeOf`,
    `Encode`).
  - `DecodeEncoded` proves that decoding inverts encoding.
- `Huffman` (`huffman.dfy`): the class `HuffmanCode` with its field
  `overallRoot`, its two constructors, `Save` and `Translate`.
  - `Translate` is a `while` loop over the bits. It is proved to write the
    bytes (`Written`) of what `Run` produces, keeping the low eight bits of
    each symbol.
  - The lemmas `SingleSymbolCode`, `TwoSymbolCode` and `BuiltCodeDecodes`
    tie building, saving, loading and decoding together.

Frequencies are unbounded naturals.

## Model

| member | source | states |
|---|---|---|
| HuffmanTree.NewLeaf | HuffmanCode.java:138-143 | the node built from a symbol and a frequency is a leaf (both children absent) holding exactly that symbol and that frequency |
| HuffmanTree.Merge | HuffmanCode.java:148-154 | the merged node is a branch with the first node as zero child and the second as one child; its frequency is the sum of theirs and its leaves hold the symbols of both |
| HuffmanTree.CompareTo | HuffmanCode.java:160-162 | compareTo is negative, zero or positive exactly when this node's frequency is lower than, equal to or higher than the other's |
| Builder.WellWeightedIsFull | HuffmanCode.java:148-154 | every tree the builder makes is full: each node is a leaf or has two present children |
| Builder.PositiveSymbolsCount | HuffmanCode.java:27-33 | an index is among the symbols to be coded exactly once when its frequency is positive, and not at all otherwise |
| Builder.SinglePositive | HuffmanCode.java:27-33 | when only index i has a positive frequency, i is the only symbol to be coded |
| Builder.QueueRemove | HuffmanCode.java:36 | taking one tree out of the queue removes exactly its symbols and its weight from the queue's totals |
| Builder.QueueSymbolsEmpty | HuffmanCode.java:35-39 | a queue of present trees holds no symbol exactly when it is empty, which is when the final remove() throws |
| Builder.RemoveMin | HuffmanCode.java:36 | remove() returns a tree of the queue whose compareTo against every remaining tree is not positive; the rest is the queue minus that one tree, so the symbols and weight are split between the two |
| Builder.TwoPositive | HuffmanCode.java:27-33 | when only indices a and b have a positive frequency, they are exactly the symbols to be coded |
| Builder.LeafQueue | HuffmanCode.java:27-33 | the first loop queues only leaves with positive frequency, and the leaf for index i carries frequencies[i]; their symbols are exactly the indices with a positive frequency, and their weight is the sum of those frequencies |
| Builder.SymbolHolder | HuffmanCode.java:35-37 | a symbol held by the queue is held by one of its trees |
| Builder.LeafQueueSize | HuffmanCode.java:27-33 | a queue of leaves holds one symbol per tree |
| Builder.LightestIn | HuffmanCode.java:36 | in a queue of leaves, the one remove() returns is no heavier than the frequency of any symbol the queue holds |
| Builder.FirstMerge | HuffmanCode.java:35-37 | the first round, on the queue of leaves, merges a lightest pair: a leaf no heavier than any positive frequency as zero child, and a leaf no heavier than any other index's positive frequency as one child |
| Builder.KeepsHeld | HuffmanCode.java:36 | a subtree held by some tree of the queue is still held by one after a round: in an untouched tree or in the new merged tree |
| Builder.GreedyRound | HuffmanCode.java:35-37 | after each round the queue holds a lightest pair as a subtree |
| Builder.MergeKeepsWeighted | HuffmanCode.java:36 | merging two well-weighted trees, lighter first, gives a well-weighted tree: data 0, frequency the sum, and a zero child no heavier than the one child; every leaf still carries its own index's frequency |
| Builder.MergeKeepsContents | HuffmanCode.java:36 | queueing the merge of the two removed trees restores their symbols and weight to the queue |
| Builder.MergeStep | HuffmanCode.java:35-37 | one round of the merge loop keeps the queue invariant: all trees well weighted with leaves carrying their own frequencies, all positive symbols held once, total weight unchanged |
| Builder.BuildTree | HuffmanCode.java:23-40 | building fails exactly when no frequency is positive (the final remove() from the empty queue). Otherwise the root is well weighted; its leaves are exactly the indices with positive frequency, each once, each carrying its frequency; and the root's frequency is their total. With two or more symbols the tree contains the lightest pair the first round merged |
| Codec.SaveSymbols | HuffmanCode.java:89-99 | save writes one record per leaf, and the symbols it writes are the tree's leaf symbols with their multiplicity; an absent tree writes nothing |
| Codec.SaveRoutes | HuffmanCode.java:89-99 | every record's route extends the route so far, and the rest of it is a binary route from the node to a leaf holding the record's symbol; below a branch every route grows |
| Codec.SaveOrdered | HuffmanCode.java:89-99 | records come in pre-order: of any two records, the earlier one's route takes the zero side where the two routes part |
| Codec.SavePrefixFree | HuffmanCode.java:79-99 | the saved routes are binary, pairwise distinct and prefix-free; they are non-empty when the root is a branch, and a lone leaf saves one record with the empty route |
| Codec.SaveComplete | HuffmanCode.java:89-99 | every leaf reached by a binary route is saved, with that route and its own symbol |
| Codec.SaveStrip | HuffmanCode.java:89-99 | save reads neither frequencies nor branch symbols: zeroing them leaves the saved records unchanged |
| Codec.Fill | HuffmanCode.java:65-67 | an absent node is replaced by a present dummy node, and a present node is kept |
| Codec.ReadHelper | HuffmanCode.java:59-75 | readHelper places a fresh leaf with the symbol at the end of the path. An empty path replaces whatever was there; a non-empty path keeps the node (or dummy) at the top and its child on the side not taken. A first character other than '0' goes to the one child |
| Codec.ReadHelperKeepsOthers | HuffmanCode.java:69-74 | readHelper leaves every route that parts from the path unchanged |
| Codec.LoadFromAppend | HuffmanCode.java:47-52 | loading two runs of records one after the other is loading their concatenation |
| Codec.LoadSaveFrom | HuffmanCode.java:44-99 | loading the records saved from a full tree below an absent position grafts that tree, stripped, at the position |
| Codec.RoundTrip | HuffmanCode.java:44-99 | loading the records saved from a full tree rebuilds it with the same shape and leaf symbols, and saving the rebuilt tree writes the same records |
| Codec.StripFull | HuffmanCode.java:59-75 | the tree that loading rebuilds from a full tree is full, and its root is a leaf exactly when the original's is |
| Decoder.Run | HuffmanCode.java:103-123 | translate writes at least the final symbol, and at most one symbol per bit besides it |
| Decoder.RunLeafStep | HuffmanCode.java:106-109 | at a leaf with bits left, its symbol is written and the cursor goes back to the root without taking a bit |
| Decoder.RunBitStep | HuffmanCode.java:111-115 | at a branch, bit 0 moves the cursor to the zero child and any other bit to the one child |
| Decoder.WrittenByte | HuffmanCode.java:107 | writing a symbol puts out the byte congruent to it modulo 256, which is the symbol itself when it is from 0 to 255 |
| Decoder.Written | HuffmanCode.java:103-123 | one byte is written per symbol |
| Decoder.WrittenAppend | HuffmanCode.java:107 | writing one more symbol appends its byte |
| Decoder.WrittenAt | HuffmanCode.java:103-123 | each symbol is written as its own byte, in its own place |
| Decoder.WrittenBytes | HuffmanCode.java:103-123 | symbols from 0 to 255 are written unchanged |
| Decoder.ToBits | HuffmanCode.java:111-115 | a route read as bits has one bit per character, bit 0 exactly where the route has '0' |
| Decoder.CodeOf | HuffmanCode.java:89-99 | a symbol has a code exactly when some saved record holds it, and the code is the route of the first record that holds it |
| Decoder.Encode | HuffmanCode.java:89-99 | a message can be encoded exactly when each of its symbols has a saved record |
| Decoder.RunRoute | HuffmanCode.java:111-115 | feeding the bits of a route from the cursor to a leaf moves the cursor to that leaf, whatever bits follow |
| Decoder.CodeLeadsToLeaf | HuffmanCode.java:89-99 | the code of a symbol of a full tree with a branch at the root is non-empty and leads to the leaf holding that symbol |
| Decoder.DecodeEncoded | HuffmanCode.java:103-123 | for a full tree with a branch at the root, translating the encoding of a non-empty message writes exactly that message; the last symbol comes from the write after the loop |
| Huffman.HuffmanCode.FromFrequencies | HuffmanCode.java:23-40 | the constructed tree is well weighted and full; its leaves are exactly the indices with positive frequency, each carrying its frequency, and its frequency is their total; with two or more symbols it contains a lightest pair |
| Huffman.HuffmanCode.FromRecords | HuffmanCode.java:44-53 | the Scanner constructor leaves in overallRoot the fold of readHelper over the records, starting from no tree |
| Huffman.HuffmanCode.Save | HuffmanCode.java:79-82 | the public save writes the records of the walk from overallRoot with the empty route, one per leaf |
| Huffman.HuffmanCode.Translate | HuffmanCode.java:103-123 | the loop writes the bytes of exactly the symbols the state machine Run produces; with no bits it writes the root's byte once |
| Huffman.SingleSymbolCode | HuffmanCode.java:23-40 | with one positive frequency, at index i, the built tree is a single leaf for i, and save writes one record for it with the empty route |
| Huffman.TwoSymbolCode | HuffmanCode.java:23-40 | with exactly two positive frequencies and no tie, the built tree saves the lighter symbol with route "0" and then the heavier one with route "1" |
| Huffman.SavedSymbolsInTable | HuffmanCode.java:27-33 | every symbol saved from a built tree is an index of the frequency table |
| Huffman.WrittenMessage | HuffmanCode.java:107 | for a table of at most 256 entries, a message of saved symbols is written byte for byte as itself |
| Huffman.BuiltCodeDecodes | HuffmanCode.java:23-123 | with two or more positive frequencies the built tree is full with a branch at the root. It decodes the encoding of any non-empty message of its symbols, and so does the tree loaded back from its saved records; for a table of at most 256 entries the bytes written are the message |

## Left out

- I/O: `Scanner`, `PrintStream`, `BitInputStream` and `Integer.parseInt` are not modelled. Saved records are a `seq<Record>` of (symbol, route) pairs, bits are a `seq<Bit>`, and decoded output is a returned sequence of bytes. The two-line text format of a record is not modelled.
- Decoder.DecodeEncoded: is stated about the symbols `translate` reaches, not about the bytes it writes. `write(int)` keeps only the low eight bits of a symbol (`WrittenByte`), so the written bytes equal the message only for symbols from 0 to 255. `Huffman.WrittenMessage` and `Huffman.BuiltCodeDecodes` prove this for frequency tables of at most 256 entries. A symbol loaded from records outside that range is written as its residue modulo 256.
- The heap inside `java.util.PriorityQueue` and its order on ties are left out. `RemoveMin` may return any tree of least frequency.
- Which tree wins a tie is therefore not modelled, so no particular assignment of routes to symbols is proved. The comment on the frequency constructor says equal frequencies keep their original order. `compareTo` compares frequencies only, and `PriorityQueue` makes no first-in-first-out promise on ties, so the model follows the code and leaves ties open.
- Overflow: the 32-bit overflow of summed frequencies in the merge constructor and of the subtraction in `compareTo` is not modelled, because frequencies are unbounded naturals.
- Huffman optimality (minimal weighted route length) is not stated by the code and is not proved.
- Builder.BuildTree: does not state the promise of the frequency constructor's comment that lighter symbols sit lower in the tree and heavier ones higher (a lighter leaf at least as deep as a heavier one). The lightest-first choice of every round is reflected only through the lightest pair of the first round, and through the lighter-first order of every merged pair.
- Huffman.HuffmanCode.FromFrequencies: requires at least one positive frequency instead of modelling the exception thrown by the final `remove()`. `Builder.BuildTree` models that path as `Failure(EmptyQueue)`.
- Huffman.HuffmanCode.Translate: requires a full tree, and no bits when the root is a leaf. On a tree left with one-child placeholder nodes by malformed records, `translate` dereferences null. With a leaf root and bits remaining, its loop never consumes a bit and does not end. Neither behaviour is modelled.
- Codec.ReadHelper: updates the children of the node it returns in place, while the model builds new values. A tree built by the constructors shares no nodes, so no other reference can observe the difference, but aliasing is not modelled.
- Decoder.Run: states bounds on the output length only. What it writes is stated by `Decoder.DecodeEncoded` for encoded messages.
