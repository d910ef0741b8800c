/**
 * The public `Huffman<T>` type (src/lib.rs:135-193): it builds the code tree
 * from the weights, derives the encoder from it, hands the same tree to the
 * decoder, and delegates encoding and decoding to them.
 */
module HuffmanCoder {
  import opened Results
  import opened CodeTree
  import TreeBuilder
  import Encoding
  import Decoding

  datatype Huffman<S> = Huffman(encoder: Encoding.Encoder<S>, decoder: Decoding.Decoder<S>)

  /** The encoder's dictionary is the one derived from the decoder's (well-formed) tree. */
  ghost predicate Consistent<S>(h: Huffman<S>)
  {
    && WellFormed(h.decoder.root)
    && h.encoder.encoding == Encoding.CodeMap(h.decoder.root, [])
  }

  /** The symbols named in a weight table. */
  function WeightSymbols<S>(weights: seq<(S, nat)>): set<S>
  {
    set i | 0 <= i < |weights| :: weights[i].0
  }

  lemma LeafSymbolsAreWeightSymbols<S>(root: Node<S>, weights: seq<(S, nat)>)
    requires Leaves(root) == multiset(weights)
    ensures Symbols(root) == WeightSymbols(weights)
  {
    SymbolsOfLeaves(root);
    forall s | s in Symbols(root) ensures s in WeightSymbols(weights) {
      var p :| p in Leaves(root) && p.0 == s;
      assert p in weights;
      var i :| 0 <= i < |weights| && weights[i] == p;
    }
    forall s | s in WeightSymbols(weights) ensures s in Symbols(root) {
      var i :| 0 <= i < |weights| && weights[i].0 == s;
      assert weights[i] in multiset(weights);
    }
  }

  /**
   * `Huffman::new` (src/lib.rs:144-170). An empty table is `InvalidWeights`.
   * Otherwise the tree is the one the merge rounds determine (the same table
   * always gives the same coder): it is well formed, its leaves are exactly
   * the table's pairs, its root frequency is the total weight, its symbols
   * are the table's, and it has an internal root exactly when the table has
   * two or more entries.
   */
  method New<S(==)>(weights: seq<(S, nat)>) returns (r: Result<Huffman<S>, S>)
    ensures r.Err? <==> weights == []
    ensures r.Err? ==> r.error == InvalidWeights(ExpectedRootNode)
    ensures r.Ok? ==> r.value.decoder.root == TreeBuilder.HuffmanTree(weights)
    ensures r.Ok? ==> Consistent(r.value)
    ensures r.Ok? ==> Leaves(r.value.decoder.root) == multiset(weights)
    ensures r.Ok? ==> r.value.decoder.root.freq == TreeBuilder.SumWeights(weights)
    ensures r.Ok? ==> Symbols(r.value.decoder.root) == WeightSymbols(weights)
    ensures r.Ok? ==> (r.value.decoder.root.Internal? <==> |weights| >= 2)
  {
    var built := TreeBuilder.Build(weights);
    if built.Err? {
      return Err(built.error);
    }
    var root := built.value;
    LeafSymbolsAreWeightSymbols(root, weights);
    LeavesNonEmpty(root);
    var encoder := Encoding.NewEncoder(root);
    var decoder := Decoding.Decoder(root);
    r := Ok(Huffman(encoder, decoder));
  }

  /**
   * `decode(encode(data)) == data` for a tree with an internal root: the
   * codes of the items, concatenated, decode to the items, and whatever
   * follows them is decoded independently.
   */
  lemma {:induction false} DecodeConcat<S>(root: Node<S>, m: map<S, seq<bool>>, data: seq<S>, tail: seq<bool>)
    requires root.Internal?
    requires forall s :: s in m ==> PathTo(root, m[s]) == Some(s)
    requires forall k :: 0 <= k < |data| ==> data[k] in m
    ensures Decoding.DecodeBits(root, Encoding.Concat(m, data) + tail)
         == data + Decoding.DecodeBits(root, tail)
  {
    if data == [] {
      assert Encoding.Concat(m, data) + tail == tail;
    } else {
      var code, rest := m[data[0]], Encoding.Concat(m, data[1..]);
      assert Encoding.Concat(m, data) + tail == code + (rest + tail);
      Decoding.DecodeCode(root, root, code, rest + tail, data[0]);
      DecodeConcat(root, m, data[1..], tail);
      assert data == [data[0]] + data[1..];
    }
  }

  /**
   * `Huffman::encode` (src/lib.rs:173-175): fails exactly when some item is
   * not a symbol of the tree, naming the first such item; otherwise the bits
   * are the items' codes in order, and when the tree has an internal root,
   * decoding them gives back the items.
   */
  method Encode<S(==)>(h: Huffman<S>, data: seq<S>) returns (r: Result<seq<bool>, S>)
    requires Consistent(h)
    ensures r.Ok? <==> forall k :: 0 <= k < |data| ==> data[k] in Symbols(h.decoder.root)
    ensures r.Ok? ==> r.value == Encoding.Concat(h.encoder.encoding, data)
    ensures r.Err? ==> exists i :: (0 <= i < |data| && data[i] !in Symbols(h.decoder.root)
                                    && (forall k :: 0 <= k < i ==> data[k] in Symbols(h.decoder.root))
                                    && r.error == NoSuchKey(data[i]))
    ensures r.Ok? && h.decoder.root.Internal? ==>
      Decoding.DecodeBits(h.decoder.root, r.value) == data
  {
    r := Encoding.Encode(h.encoder, data);
    if r.Ok? && h.decoder.root.Internal? {
      TreeRoundTrip(h.decoder.root, data);
    }
  }

  /** `Huffman::decode` / `decode_owned` (src/lib.rs:177-187). */
  method Decode<S>(h: Huffman<S>, encoded: seq<bool>) returns (decoded: seq<S>)
    ensures decoded == Decoding.DecodeBits(h.decoder.root, encoded)
  {
    decoded := Decoding.Decode(h.decoder, encoded);
  }

  /**
   * The round trip the tests assert (src/lib.rs:200-232), for any tree with
   * an internal root (a table of two or more weights): every sequence of its
   * symbols has codes, and their concatenation decodes back to the sequence.
   * Symbols repeated in the table need no special care: whichever leaf's
   * code the dictionary kept, it leads to a leaf holding that symbol.
   */
  lemma TreeRoundTrip<S>(root: Node<S>, data: seq<S>)
    requires root.Internal?
    requires forall k :: 0 <= k < |data| ==> data[k] in Symbols(root)
    ensures forall k :: 0 <= k < |data| ==> data[k] in Encoding.CodeMap(root, [])
    ensures Decoding.DecodeBits(root, Encoding.Concat(Encoding.CodeMap(root, []), data)) == data
  {
    var m := Encoding.CodeMap(root, []);
    Encoding.CodeMapPaths(root, []);
    forall s | s in m ensures PathTo(root, m[s]) == Some(s) {
      assert m[s][0..] == m[s];
    }
    DecodeConcat(root, m, data, []);
    assert Encoding.Concat(m, data) + [] == Encoding.Concat(m, data);
  }

  /**
   * Trailing bits that stop part-way down some symbol's code are dropped
   * without an error: the decode still yields exactly the encoded items.
   */
  lemma TruncatedTailDropped<S>(h: Huffman<S>, data: seq<S>, s: S, p: seq<bool>)
    requires Consistent(h) && h.decoder.root.Internal?
    requires forall k :: 0 <= k < |data| ==> data[k] in Symbols(h.decoder.root)
    requires s in h.encoder.encoding
    requires IsPrefix(p, h.encoder.encoding[s]) && |p| < |h.encoder.encoding[s]|
    ensures Decoding.DecodeBits(h.decoder.root, Encoding.Concat(h.encoder.encoding, data) + p) == data
  {
    var root, m := h.decoder.root, h.encoder.encoding;
    Encoding.CodeMapPaths(root, []);
    forall t | t in m ensures PathTo(root, m[t]) == Some(t) {
      assert m[t][0..] == m[t];
    }
    DecodeConcat(root, m, data, p);
    Decoding.UnfinishedPathDropped(root, root, p, m[s]);
    assert data + [] == data;
  }

  /**
   * A one-entry table gives a single-leaf tree: its symbol's code is empty,
   * so any data made of it encodes to no bits, and decoding yields the symbol
   * once per bit. The round trip therefore needs at least two weights.
   */
  lemma SingleSymbolCodes<S>(h: Huffman<S>, data: seq<S>, bits: seq<bool>)
    requires Consistent(h) && h.decoder.root.Leaf?
    requires forall k :: 0 <= k < |data| ==> data[k] == h.decoder.root.value
    ensures forall k :: 0 <= k < |data| ==> data[k] in h.encoder.encoding
    ensures Encoding.Concat(h.encoder.encoding, data) == []
    ensures Decoding.DecodeBits(h.decoder.root, bits) == seq(|bits|, _ => h.decoder.root.value)
  {
    var m := h.encoder.encoding;
    assert m == map[h.decoder.root.value := []];
    Decoding.SingleLeafRepeats(h.decoder.root, bits);
  }
}
