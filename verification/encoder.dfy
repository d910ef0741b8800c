/**
 * The encoder (src/lib.rs:33-78): a dictionary from symbol to code, derived
 * once from the code tree by a root-to-leaf walk, and the encoding of a
 * symbol sequence as the concatenation of the symbols' codes.
 */
module Encoding {
  import opened Results
  import opened CodeTree

  /** `Encoder<T>`: the symbol-to-bits dictionary. */
  datatype Encoder<S> = Encoder(encoding: map<S, seq<bool>>)

  /**
   * The entries `assign` records below `n` when the bits walked so far are
   * `prefix`: each leaf's symbol maps to its path, `false` for a left step
   * and `true` for a right step. Right-biased union: when a symbol occurs in
   * two leaves, the later one in left-to-right order wins, as a second
   * `HashMap::insert` of the same key replaces the first.
   */
  function CodeMap<S(==)>(n: Node<S>, prefix: seq<bool>): (m: map<S, seq<bool>>)
    ensures m.Keys == Symbols(n)
  {
    match n
    case Leaf(_, v) => map[v := prefix]
    case Internal(_, l, r) => CodeMap(l, prefix + [false]) + CodeMap(r, prefix + [true])
  }

  /** No code in the dictionary is a prefix of another symbol's code. */
  ghost predicate PrefixFree<S>(m: map<S, seq<bool>>)
  {
    forall a, b :: a in m && b in m && IsPrefix(m[a], m[b]) ==> a == b
  }

  /**
   * Each recorded code starts with the bits walked so far and continues with
   * the path from `n` to a leaf holding that very symbol.
   */
  lemma {:induction false} CodeMapPaths<S>(n: Node<S>, prefix: seq<bool>)
    ensures forall s :: s in CodeMap(n, prefix) ==>
      var code := CodeMap(n, prefix)[s];
      IsPrefix(prefix, code) && PathTo(n, code[|prefix|..]) == Some(s)
  {
    match n
    case Leaf(_, v) =>
      assert CodeMap(n, prefix)[v][|prefix|..] == [];
    case Internal(_, l, r) =>
      var m := CodeMap(n, prefix);
      forall s | s in m
        ensures IsPrefix(prefix, m[s]) && PathTo(n, m[s][|prefix|..]) == Some(s)
      {
        var bit := s in CodeMap(r, prefix + [true]);
        var child := Child(n, bit);
        var p := prefix + [bit];
        assert m[s] == CodeMap(child, p)[s];
        CodeMapPaths(child, p);
        var code := m[s];
        assert code[..|prefix|] == code[..|p|][..|prefix|];
        assert code[|prefix|..][1..] == code[|p|..];
        assert code[|prefix|..][0] == bit;
      }
  }

  /** The codes of a tree's dictionary are prefix-free. */
  lemma CodeMapPrefixFree<S>(root: Node<S>)
    ensures PrefixFree(CodeMap(root, []))
  {
    var m := CodeMap(root, []);
    CodeMapPaths(root, []);
    forall a, b | a in m && b in m && IsPrefix(m[a], m[b]) ensures a == b {
      assert m[a][0..] == m[a] && m[b][0..] == m[b];
      LeafPathsPrefixFree(root, m[a], m[b]);
    }
  }

  /**
   * `assign` (src/lib.rs:42-59): records the code of every leaf below `node`
   * into `encoding`, `currentBits` being the path walked to `node`.
   */
  method Assign<S(==)>(node: Node<S>, encoding: map<S, seq<bool>>, currentBits: seq<bool>)
    returns (updated: map<S, seq<bool>>)
    ensures updated == encoding + CodeMap(node, currentBits)
    decreases node
  {
    match node
    case Leaf(_, ch) =>
      updated := encoding[ch := currentBits];
    case Internal(_, l, r) =>
      var bits := currentBits + [false];
      updated := Assign(l, encoding, bits);
      updated := Assign(r, updated, currentBits + [true]);
  }

  /**
   * `Encoder::new` (src/lib.rs:41-64): every symbol of the tree gets an
   * entry, each entry is the root-to-leaf path of a leaf holding its symbol,
   * and the codes are prefix-free. A single-leaf tree gives its symbol the
   * empty code.
   */
  method NewEncoder<S(==)>(root: Node<S>) returns (e: Encoder<S>)
    ensures e.encoding == CodeMap(root, [])
    ensures e.encoding.Keys == Symbols(root)
    ensures forall s :: s in e.encoding ==> PathTo(root, e.encoding[s]) == Some(s)
    ensures PrefixFree(e.encoding)
    ensures root.Leaf? ==> e.encoding == map[root.value := []]
  {
    var encoding := Assign(root, map[], []);
    assert map[] + CodeMap(root, []) == CodeMap(root, []);
    CodeMapPaths(root, []);
    forall s | s in encoding ensures PathTo(root, encoding[s]) == Some(s) {
      assert encoding[s][0..] == encoding[s];
    }
    CodeMapPrefixFree(root);
    e := Encoder(encoding);
  }

  /**
   * The concatenation, in order, of the codes of `data`. Items whose codes
   * are all empty give no bits; items whose codes are all non-empty give at
   * least one bit each.
   */
  function Concat<S(==)>(m: map<S, seq<bool>>, data: seq<S>): (r: seq<bool>)
    requires forall k :: 0 <= k < |data| ==> data[k] in m
    ensures (forall k :: 0 <= k < |data| ==> m[data[k]] == []) ==> r == []
    ensures (forall k :: 0 <= k < |data| ==> m[data[k]] != []) ==> |r| >= |data|
  {
    if data == [] then [] else m[data[0]] + Concat(m, data[1..])
  }

  lemma {:induction false} ConcatAppend<S>(m: map<S, seq<bool>>, data: seq<S>, x: S)
    requires forall k :: 0 <= k < |data| ==> data[k] in m
    requires x in m
    ensures Concat(m, data + [x]) == Concat(m, data) + m[x]
  {
    if data == [] {
      assert data + [x] == [x];
      assert [x][1..] == [];
    } else {
      assert (data + [x])[1..] == data[1..] + [x];
      ConcatAppend(m, data[1..], x);
    }
  }

  /**
   * `Encoder::encode` (src/lib.rs:66-77): when every item has a code, the
   * result is the concatenation of their codes in input order; otherwise it
   * is `NoSuchKey` naming the first item without one, and no bits.
   */
  method Encode<S(==)>(enc: Encoder<S>, data: seq<S>) returns (r: Result<seq<bool>, S>)
    ensures r.Ok? <==> forall k :: 0 <= k < |data| ==> data[k] in enc.encoding
    ensures r.Ok? ==> r.value == Concat(enc.encoding, data)
    ensures r.Err? ==> exists i :: (0 <= i < |data| && data[i] !in enc.encoding
                                    && (forall k :: 0 <= k < i ==> data[k] in enc.encoding)
                                    && r.error == NoSuchKey(data[i]))
  {
    var vec := [];
    for i := 0 to |data|
      invariant forall k :: 0 <= k < i ==> data[k] in enc.encoding
      invariant vec == Concat(enc.encoding, data[..i])
    {
      var item := data[i];
      if item !in enc.encoding {
        return Err(NoSuchKey(item));
      }
      ConcatAppend(enc.encoding, data[..i], item);
      assert data[..i + 1] == data[..i] + [item];
      vec := vec + enc.encoding[item];
    }
    assert data[..|data|] == data;
    r := Ok(vec);
  }
}
