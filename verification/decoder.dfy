/**
 * The decoder (src/lib.rs:80-133): it keeps the code tree and walks it one
 * bit at a time, emitting a leaf's symbol and returning to the root whenever
 * the pointer reaches a leaf.
 */
module Decoding {
  import opened Results
  import opened CodeTree

  /** `Decoder<T>`: owns the code tree. */
  datatype Decoder<S> = Decoder(root: Node<S>)

  /**
   * The pointer's move on one bit (src/lib.rs:119-125): to the right child
   * on `true`, to the left child on `false`; a leaf has no children, so the
   * pointer stays where it is. The pointer only ever moves downwards.
   */
  function Advance<S>(cur: Node<S>, bit: bool): (next: Node<S>)
    ensures cur.Leaf? ==> next == cur
    ensures Symbols(next) <= Symbols(cur)
  {
    if cur.Internal? then Child(cur, bit) else cur
  }

  /**
   * The symbols the iterator still yields when its pointer is at `cur` and
   * `bits` remain: on reaching a leaf it emits the leaf's symbol and resets to
   * the root; bits left over while the pointer is at an internal node yield
   * nothing. Every symbol yielded costs at least one bit and is a symbol of
   * the tree.
   */
  function DecodeFrom<S>(root: Node<S>, cur: Node<S>, bits: seq<bool>): (r: seq<S>)
    ensures |r| <= |bits|
    ensures forall k :: 0 <= k < |r| ==> r[k] in Symbols(root) + Symbols(cur)
    decreases |bits|
  {
    if bits == [] then []
    else
      var next := Advance(cur, bits[0]);
      if next.Leaf? then [next.value] + DecodeFrom(root, root, bits[1..])
      else DecodeFrom(root, next, bits[1..])
  }

  /**
   * The full output of a decode call: a fresh pointer at the root. It has no
   * more symbols than there are bits, and each is a symbol of the tree.
   */
  function DecodeBits<S>(root: Node<S>, bits: seq<bool>): (r: seq<S>)
    ensures |r| <= |bits|
    ensures forall k :: 0 <= k < |r| ==> r[k] in Symbols(root)
  {
    DecodeFrom(root, root, bits)
  }

  /**
   * `DecoderIter` (src/lib.rs:109-133): the bits not yet read and the
   * pointer into the tree. `Remaining()` is what the iterator has still to
   * yield.
   */
  class DecoderIter<S> {
    const root: Node<S>
    var input: seq<bool>
    var current: Node<S>

    function Remaining(): seq<S>
      reads this
    {
      DecodeFrom(root, current, input)
    }

    /** `decode_iter` (src/lib.rs:89-95): a pointer at the root and all of `encoded` to read. */
    constructor (root: Node<S>, encoded: seq<bool>)
      ensures this.root == root && input == encoded && current == root
      ensures Remaining() == DecodeBits(root, encoded)
    {
      this.root := root;
      input := encoded;
      current := root;
    }

    /**
     * `next` (src/lib.rs:117-132), its tail call written as a loop: yields
     * the first of the remaining symbols, or `None` once there is none, in
     * which case all input has been read. Yielding a symbol consumes at least
     * one bit and leaves the pointer at the root.
     */
    method Next() returns (item: Option<S>)
      modifies this
      ensures old(Remaining()) == [] ==> item == None && input == []
      ensures old(Remaining()) != [] ==>
        && item == Some(old(Remaining())[0])
        && Remaining() == old(Remaining())[1..]
        && current == root
        && |input| < |old(input)|
    {
      while input != []
        invariant DecodeFrom(root, current, input) == old(Remaining())
        invariant |input| <= |old(input)|
        decreases |input|
      {
        var bit := input[0];
        input := input[1..];
        current := Advance(current, bit);
        if current.Leaf? {
          var value := current.value;
          current := root;
          return Some(value);
        }
      }
      return None;
    }
  }

  /**
   * `Decoder::decode` / `decode_owned` (src/lib.rs:97-106): collects
   * everything a fresh iterator yields.
   */
  method Decode<S>(dec: Decoder<S>, encoded: seq<bool>) returns (decoded: seq<S>)
    ensures decoded == DecodeBits(dec.root, encoded)
  {
    var iter := new DecoderIter(dec.root, encoded);
    decoded := [];
    while true
      invariant decoded + iter.Remaining() == DecodeBits(dec.root, encoded)
      decreases |iter.input|
    {
      var item := iter.Next();
      if item.None? {
        break;
      }
      decoded := decoded + [item.value];
    }
  }

  /** A code that leads from `cur` to a leaf yields exactly that leaf's symbol. */
  lemma {:induction false} DecodeCode<S>(root: Node<S>, cur: Node<S>, code: seq<bool>, rest: seq<bool>, x: S)
    requires cur.Internal?
    requires PathTo(cur, code) == Some(x)
    ensures DecodeFrom(root, cur, code + rest) == [x] + DecodeFrom(root, root, rest)
  {
    var next := Child(cur, code[0]);
    assert (code + rest)[0] == code[0];
    assert (code + rest)[1..] == code[1..] + rest;
    if next.Leaf? {
      assert code[1..] == [];
    } else {
      DecodeCode(root, next, code[1..], rest, x);
    }
  }

  /**
   * Bits that stop part-way down a root-to-leaf path, at an internal node,
   * are dropped: they yield no symbol and no error (src/lib.rs:118, 129-130).
   */
  lemma {:induction false} UnfinishedPathDropped<S>(root: Node<S>, cur: Node<S>, p: seq<bool>, q: seq<bool>)
    requires PathTo(cur, q).Some?
    requires IsPrefix(p, q) && |p| < |q|
    ensures DecodeFrom(root, cur, p) == []
  {
    if p != [] {
      var next := Child(cur, p[0]);
      assert q[0] == p[0];
      assert q[1..][..|p| - 1] == p[1..];
      UnfinishedPathDropped(root, next, p[1..], q[1..]);
    }
  }

  /**
   * With a single-leaf tree the pointer never moves: every bit yields the
   * root's symbol once (src/lib.rs:118-128).
   */
  lemma {:induction false} SingleLeafRepeats<S>(root: Node<S>, bits: seq<bool>)
    requires root.Leaf?
    ensures DecodeBits(root, bits) == seq(|bits|, _ => root.value)
  {
    if bits != [] {
      SingleLeafRepeats(root, bits[1..]);
    }
  }
}
