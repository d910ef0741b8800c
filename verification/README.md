# Static Huffman coder — a verified model

This project models a small generic Huffman coding library (`src/lib.rs`). The
library takes a table of `(symbol, weight)` pairs and builds a Huffman code tree.
It derives a symbol-to-bits dictionary from the tree, and it encodes a sequence of
symbols as the concatenation of their codes. Decoding walks the tree bit by bit,
emitting a symbol each time it reaches a leaf.

The model has one module per part of the library:

| file | module | models |
|---|---|---|
| `results.dfy` | `Results` | the error type (`NoSuchKey`, `InvalidWeights`) and `Option` |
| `tree.dfy` | `CodeTree` | the tree node, its leaves and symbols, and root-to-leaf paths |
| `sort.dfy` | `StableSort` | the stable sort by descending frequency used in each merge round |
| `builder.dfy` | `TreeBuilder` | the tree-building loop of `Huffman::new` |
| `encoder.dfy` | `Encoding` | `Encoder::new` / `assign` and `Encoder::encode` |
| `decoder.dfy` | `Decoding` | `Decoder::decode` / `decode_owned` and the `DecoderIter` state machine |
| `huffman.dfy` | `HuffmanCoder` | the `Huffman<T>` facade and the round trip |
| `scenarios.dfy` | `Scenarios` | the library's own test tables, worked out exactly |

How each kind of code is modelled:

- **Tree builder.** Builds the tree step by step, so it is a method with a
  loop (`TreeBuilder.Build`). It is proved against a reference function
  (`TreeBuilder.HuffmanTree`) that repeats one merge round until one node is
  left. Each round sorts by descending frequency, takes the last node `a`
  (lowest frequency) as the left child and the next node `b` as the right
  child, and pushes `Internal(a.freq + b.freq, a, b)`.
- **Stable sort.** The library relies on the standard library's stable
  `sort_by`, so ties keep their current order. The model specifies the sort
  by an insertion sort, `StableSort.SortDesc`, proved to be ordered, a
  permutation and stable.
- **Dictionary.** `assign` is a recursive method (`Encoding.Assign`) that
  threads the map. It is proved equal to the function `Encoding.CodeMap`.
  When a symbol occurs twice in the table, `CodeMap` keeps the code of the
  later leaf, just as a second `HashMap::insert` of the same key replaces the
  first.
- **Decoding.** The iterator is a class (`Decoding.DecoderIter`) with the
  bits still to read and the pointer into the tree. Its state is specified
  by what it still has to yield (`Remaining()`), so that
  `Decoding.Decode`'s collecting loop is proved equal to the function
  `Decoding.DecodeBits`.
- **Decoding edge cases.** These are stated as lemmas rather than left
  implicit:
  - trailing bits that stop part-way down a code are silently dropped;
  - a one-entry table gives a single-leaf tree whose symbol has the empty
    code, and decoding then yields that symbol once per bit. For such a
    table the round trip does not hold.

## Data model

| Dafny type | source | models |
|---|---|---|
| `Results.Error` | src/lib.rs:5-11 | the library's error: `NoSuchKey` with the missing symbol, `InvalidWeights` with its reason |
| `CodeTree.Node` | src/lib.rs:15-31 | a tree node: a leaf with a frequency and a symbol, or an internal node with a frequency and two children |
| `Encoding.Encoder` | src/lib.rs:33-35 | the symbol-to-code dictionary |
| `Decoding.Decoder` | src/lib.rs:80-82 | the owned code tree |
| `Decoding.DecoderIter` | src/lib.rs:109-113 | the decoding iterator: the tree, the unread bits and the current node |
| `HuffmanCoder.Huffman` | src/lib.rs:135-138 | the facade pairing an encoder with a decoder |

## Model

| member | source | states |
|---|---|---|
| CodeTree.LeavesNonEmpty | src/lib.rs:145-161 | every tree has at least one leaf; an internal node (one merge) has at least two |
| CodeTree.SymbolsOfLeaves | src/lib.rs:145-148 | the symbols reachable in the tree are exactly the symbols of its leaf (symbol, weight) pairs |
| CodeTree.LeafPathsPrefixFree | src/lib.rs:42-58 | a root-to-leaf path is a prefix of another root-to-leaf path only if they are the same path, reaching the same symbol |
| StableSort.Insert | src/lib.rs:151 | inserting a node yields the old nodes plus that node (as a multiset) |
| StableSort.InsertSorted | src/lib.rs:151 | inserting into a descending sequence keeps it descending by frequency |
| StableSort.InsertStable | src/lib.rs:151 | insertion keeps the relative order of nodes of equal frequency, placing the new node before its equals |
| StableSort.SortDesc | src/lib.rs:151 | the sort is a permutation of its input and keeps its length |
| StableSort.SortDescSorted | src/lib.rs:151 | the sort's output is ordered by non-increasing frequency |
| StableSort.SortDescStable | src/lib.rs:151 | for every frequency, the nodes of that frequency appear in the same order before and after the sort (stability of `sort_by`) |
| TreeBuilder.LeafNodes | src/lib.rs:145-148 | one leaf per table entry, in table order, each holding that entry's symbol and weight |
| TreeBuilder.LeafNodesTotals | src/lib.rs:145-148 | the initial leaf nodes are well formed, hold exactly the table's pairs and carry the table's total weight |
| TreeBuilder.PopTwoPushMerge | src/lib.rs:152-161 | the list loses one node: the nodes below the two popped ones are untouched, and the pushed node has the last node (`a`) as its left child, the one before it (`b`) as its right child, and the sum of their frequencies |
| TreeBuilder.PopTwoPushMergeLeaves | src/lib.rs:152-161 | popping two nodes and pushing their parent keeps the multiset of leaf pairs |
| TreeBuilder.PopTwoPushMergeFreq | src/lib.rs:152-161 | popping two nodes and pushing their parent keeps the total frequency |
| TreeBuilder.PopTwoPushMergeWellFormed | src/lib.rs:152-161 | popping two well-formed nodes and pushing their parent keeps every node of the list well formed |
| TreeBuilder.MergeLowest | src/lib.rs:150-161 | one merge round removes two nodes and adds one |
| TreeBuilder.MergeTakesLowest | src/lib.rs:151-160 | the merged node's children are the two lowest-frequency nodes: the left child is no heavier than the right, the right is no heavier than any node left behind, and the remaining nodes plus the two children are the nodes before the round |
| TreeBuilder.MergeLowestPreserves | src/lib.rs:150-161 | a merge round keeps every node well formed, keeps the multiset of leaf pairs and keeps the total frequency |
| TreeBuilder.BuildTree | src/lib.rs:150-166 | repeating merge rounds until one node remains yields a tree whose leaves are all the leaves of the starting trees and whose root frequency is their total frequency |
| TreeBuilder.BuildTreeWellFormed | src/lib.rs:150-166 | merge rounds on well-formed trees end with a well-formed tree |
| TreeBuilder.HuffmanTreeTotals | src/lib.rs:144-166 | the tree built from a non-empty table is well formed, holds exactly the table's (symbol, weight) pairs as leaves and has the total weight at its root |
| TreeBuilder.MergeRound | src/lib.rs:151-161 | the loop body (sort, pop, pop, push) computes exactly one merge round |
| TreeBuilder.Build | src/lib.rs:144-166 | an empty table fails with `InvalidWeights("Expected root node")`; any other table yields the tree the merge rounds determine, which is well formed, holds exactly the table's (symbol, weight) pairs as leaves and whose root frequency is the total weight |
| Encoding.CodeMap | src/lib.rs:42-59 | the dictionary has an entry for exactly the symbols of the tree |
| Encoding.CodeMapPaths | src/lib.rs:42-59 | each recorded code starts with the bits walked so far and continues with the path to a leaf holding that symbol |
| Encoding.CodeMapPrefixFree | src/lib.rs:42-64 | no code of the dictionary is a prefix of another symbol's code |
| Encoding.Assign | src/lib.rs:42-59 | the recursive walk adds to the given map exactly the tree's code entries, later leaves overriding earlier ones |
| Encoding.NewEncoder | src/lib.rs:41-64 | the encoder's dictionary covers exactly the tree's symbols, maps each to a root-to-leaf path ending at that symbol, and is prefix-free; a single-leaf tree gets the empty code |
| Encoding.Concat | src/lib.rs:66-77 | the items' codes in input order: items whose codes are all empty give no bits, items whose codes are all non-empty give at least one bit each |
| Encoding.ConcatAppend | src/lib.rs:68-75 | appending an item to the input appends its code to the output |
| Encoding.Encode | src/lib.rs:66-77 | succeeds exactly when every item has a code, with the codes concatenated in input order; otherwise fails with `NoSuchKey` naming the first item lacking a code |
| Decoding.Advance | src/lib.rs:119-125 | one bit moves the pointer to a child, so it only ever moves downwards (the symbols below it can only shrink); at a leaf it stays put |
| Decoding.DecodeFrom | src/lib.rs:117-132 | from a pointer part-way down the tree, the remaining bits yield at most one symbol per bit, each a symbol of the tree |
| Decoding.DecodeBits | src/lib.rs:97-106 | decoding a whole input from the root yields at most one symbol per bit, each a symbol of the tree |
| Decoding.DecoderIter.constructor | src/lib.rs:89-95 | a fresh iterator points at the root with all input unread, and will yield the full decode of the input |
| Decoding.DecoderIter.Next | src/lib.rs:117-132 | yields the first symbol still to come, leaving the pointer at the root and the rest still to come, having read at least one bit; yields `None` only when nothing is left, with all input read |
| Decoding.Decode | src/lib.rs:97-106 | collecting the iterator gives exactly the decode of the whole input |
| Decoding.DecodeCode | src/lib.rs:117-132 | reading a complete code from the root yields exactly that code's symbol and returns to the root for the rest |
| Decoding.UnfinishedPathDropped | src/lib.rs:118-130 | bits that stop part-way down a code yield nothing and no error |
| Decoding.SingleLeafRepeats | src/lib.rs:118-128 | with a single-leaf tree every bit yields the root's symbol |
| HuffmanCoder.LeafSymbolsAreWeightSymbols | src/lib.rs:145-148 | a tree holding exactly the table's pairs has exactly the table's symbols |
| HuffmanCoder.New | src/lib.rs:144-170 | an empty table fails with `InvalidWeights`; otherwise the coder's tree is the one the merge rounds determine, well formed, holding exactly the table's pairs as leaves with the total weight at the root; its encoder is derived from that tree, its symbols are the table's, and the root is internal exactly when the table has two or more entries |
| HuffmanCoder.DecodeConcat | src/lib.rs:66-77 | the concatenated codes of some items, followed by any bits, decode to those items followed by the decode of those bits |
| HuffmanCoder.Encode | src/lib.rs:173-175 | fails exactly when some item is not a symbol of the tree, with `NoSuchKey` naming the first such item; otherwise the bits are the items' codes concatenated in order, and with an internal root they decode back to the input |
| HuffmanCoder.Decode | src/lib.rs:177-187 | the facade's decode is the decoder's decode of the whole input |
| HuffmanCoder.TreeRoundTrip | src/lib.rs:200-232 | for a tree with an internal root, every sequence of its symbols has codes, and decoding their concatenation gives the sequence back |
| HuffmanCoder.TruncatedTailDropped | src/lib.rs:117-132 | encoded data followed by an unfinished code decodes to the encoded data alone |
| HuffmanCoder.SingleSymbolCodes | src/lib.rs:41-64 | for a one-entry table the symbol's code is empty, so any data encodes to no bits, and any bits decode to the symbol once per bit |
| Scenarios.IntegerTableRoundOne | src/lib.rs:150-161 | for the integer table the first round merges `1` and `2`, with `1` (the lighter) on the left |
| Scenarios.IntegerTableRoundTwo | src/lib.rs:150-161 | the second round puts the merged node (6) left of `0` (10) |
| Scenarios.IntegerTableTree | src/lib.rs:200-203 | weights `[(0,10),(1,1),(2,5)]` build the tree with `1` and `2` under the left child and `0` as the right child |
| Scenarios.IntegerTableCodes | src/lib.rs:200-203 | that tree's codes are `0 -> 1`, `1 -> 00`, `2 -> 01` |
| Scenarios.IntegerTableEncoding | src/lib.rs:204-205 | ten `0`s and a `1` encode to ten `1` bits then `00`, twelve bits, within the twenty-two of a fixed two-bit code |
| Scenarios.IntegerTableRoundTrip | src/lib.rs:200-208 | ten `0`s and a `1` decode back to themselves |
| Scenarios.StringTableRoundOne | src/lib.rs:150-161 | for the string table the first round merges `howdy` and `hello`, with `howdy` on the left |
| Scenarios.StringTableRoundTwo | src/lib.rs:150-161 | the merged node ties with `hey` at 3; the stable sort keeps it last, so it is popped first and becomes the left child |
| Scenarios.StringTableTree | src/lib.rs:220-227 | weights `hello:2, hey:3, howdy:1` build the tree with `howdy` and `hello` under the left child and `hey` as the right child |
| Scenarios.StringTableRoundTrip | src/lib.rs:220-232 | `howdy howdy hey hello` decodes back to itself |

## Left out

- Weights are `u32` in the source, and `a.freq + b.freq` can overflow (a panic in debug builds, wrap-around in release builds). The model uses unbounded `nat` frequencies, so it describes the source only while the total weight fits in 32 bits.
- `BitVec` is modelled as `seq<bool>`. Its packed storage and `append`/`iter` internals are not modelled.
- `HashMap` is modelled as a Dafny `map`. Hashing and iteration order play no part in the library's behaviour.
- The text of the error messages built with `format!("{:?}", …)` is not modelled. `NoSuchKey` carries the missing symbol itself; `InvalidWeights` carries the source's reason string.
- The two `pop` failures inside the merge loop ("Expected at least 1 node") cannot happen, because the loop runs only while two or more nodes remain. The model's `MergeRound` requires two nodes and the loop guard establishes that.
- Only the two node shapes the library ever builds (a leaf with a value, an internal node with both children) are modelled. The source's struct would also allow a node with one child or none.
- `Huffman::new` accepts any `IntoIterator`; the model takes the table as a sequence.
- Optimality of the code (minimal weighted path length) is neither claimed by the library nor proved here.
- `decode_iter` returns a lazy iterator borrowing the decoder. The model's `DecoderIter` class keeps the tree and the unread bits, without lifetimes. `decode` (references) and `decode_owned` (clones) yield the same symbols and are one method, `Decoding.Decode`.
- `Huffman::split` (src/lib.rs:190-192) only moves the encoder and decoder out of the facade. The model's `Huffman` datatype exposes both fields directly, and `test_split` is the integer-table scenario already covered.
- The generic bounds `Eq + Hash + Clone + Debug` are modelled by Dafny's equality-supporting type parameters.
- HuffmanCoder.Encode: requires `Consistent(h)`, i.e. that the encoder's dictionary was derived from the decoder's tree. The library cannot construct a `Huffman` any other way (`HuffmanCoder.New` ensures it), so this is the type's invariant rather than a demand on callers.
