/**
 * The library's own test scenarios (src/lib.rs:200-232), worked out on the
 * model: the exact tree each weight table builds, the codes it assigns, and
 * the round trip of the tests' data.
 */
module Scenarios {
  import opened CodeTree
  import opened StableSort
  import opened TreeBuilder
  import opened Encoding
  import opened Decoding
  import HuffmanCoder

  /** The integer test's weight table and data (src/lib.rs:202-204). */
  const IntegerWeights: seq<(int, nat)> := [(0, 10), (1, 1), (2, 5)]
  const IntegerData: seq<int> := seq(10, _ => 0) + [1]

  /** The string test's weight table and data (src/lib.rs:222-228). */
  const StringWeights: seq<(string, nat)> := [("hello", 2), ("hey", 3), ("howdy", 1)]
  const StringData: seq<string> := ["howdy", "howdy", "hey", "hello"]

  lemma SortTwo<S>(a: Node<S>, b: Node<S>)
    ensures SortDesc([a, b]) == if a.freq >= b.freq then [a, b] else [b, a]
  {
    assert [a, b][1..] == [b];
    assert [b][1..] == [];
    assert SortDesc([b]) == [b];
    if a.freq < b.freq {
      assert Insert(a, [b]) == [b] + Insert(a, []);
    }
  }

  lemma SortThreeFirstHeaviest<S>(a: Node<S>, b: Node<S>, c: Node<S>)
    requires a.freq >= b.freq && a.freq >= c.freq
    ensures SortDesc([a, b, c]) == [a] + SortDesc([b, c])
  {
    assert [a, b, c][1..] == [b, c];
    SortTwo(b, c);
  }

  lemma SortThreeMiddleHeaviest<S>(a: Node<S>, b: Node<S>, c: Node<S>)
    requires b.freq > a.freq >= c.freq
    ensures SortDesc([a, b, c]) == [b, a, c]
  {
    assert [a, b, c][1..] == [b, c];
    SortTwo(b, c);
    assert [b, c][1..] == [c];
    assert Insert(a, [c]) == [a, c];
  }

  lemma MergeThree<S>(s: seq<Node<S>>)
    requires |s| == 3
    ensures PopTwoPushMerge(s) == [s[0], Internal(s[2].freq + s[1].freq, s[2], s[1])]
  {
  }

  lemma MergeTwo<S>(s: seq<Node<S>>)
    requires |s| == 2
    ensures PopTwoPushMerge(s) == [Internal(s[1].freq + s[0].freq, s[1], s[0])]
  {
  }

  lemma MergeSorted<S>(l: seq<Node<S>>, sorted: seq<Node<S>>)
    requires |l| >= 2 && SortDesc(l) == sorted
    ensures MergeLowest(l) == PopTwoPushMerge(sorted)
  {
  }

  lemma BuildStep<S>(l: seq<Node<S>>, merged: seq<Node<S>>)
    requires |l| >= 2 && MergeLowest(l) == merged
    ensures BuildTree(l) == BuildTree(merged)
  {
  }

  /** First round for the integer table: 1 and 2 merge, 1 on the left. */
  lemma IntegerTableRoundOne()
    ensures MergeLowest([Leaf(10, 0), Leaf(1, 1), Leaf(5, 2)])
         == [Leaf(10, 0), Internal(6, Leaf(1, 1), Leaf(5, 2))]
  {
    var l0, l1, l2 := Leaf(10, 0), Leaf(1, 1), Leaf(5, 2);
    SortThreeFirstHeaviest(l0, l1, l2);
    SortTwo(l1, l2);
    MergeThree([l0, l2, l1]);
    MergeSorted([l0, l1, l2], [l0, l2, l1]);
  }

  /** Second round for the integer table: the merged node goes left of 0. */
  lemma IntegerTableRoundTwo()
    ensures MergeLowest([Leaf(10, 0), Internal(6, Leaf(1, 1), Leaf(5, 2))])
         == [Internal(16, Internal(6, Leaf(1, 1), Leaf(5, 2)), Leaf(10, 0))]
  {
    var l0, n1 := Leaf(10, 0), Internal(6, Leaf(1, 1), Leaf(5, 2));
    SortTwo(l0, n1);
    MergeTwo([l0, n1]);
    MergeSorted([l0, n1], [l0, n1]);
  }

  /**
   * The integer table (src/lib.rs:202): symbols 1 and 2
   * merge first, 1 on the left; that node then merges with 0.
   */
  lemma IntegerTableTree()
    ensures HuffmanTree(IntegerWeights)
         == Internal(16, Internal(6, Leaf(1, 1), Leaf(5, 2)), Leaf(10, 0))
  {
    var l0, l1, l2 := Leaf(10, 0), Leaf(1, 1), Leaf(5, 2);
    var n1 := Internal(6, l1, l2);
    var n2 := Internal(16, n1, l0);
    assert LeafNodes(IntegerWeights) == [l0, l1, l2];
    IntegerTableRoundOne();
    IntegerTableRoundTwo();
    BuildStep([l0, l1, l2], [l0, n1]);
    BuildStep([l0, n1], [n2]);
    assert BuildTree([n2]) == n2;
  }

  /** The codes of that tree: 0 gets one bit, 1 and 2 two bits each. */
  lemma IntegerTableCodes()
    ensures CodeMap(Internal(16, Internal(6, Leaf(1, 1), Leaf(5, 2)), Leaf(10, 0)), [])
         == map[0 := [true], 1 := [false, false], 2 := [false, true]]
  {
    var n1 := Internal(6, Leaf(1, 1), Leaf(5, 2));
    assert [] + [false] == [false] && [] + [true] == [true];
    assert [false] + [false] == [false, false];
    assert [false] + [true] == [false, true];
    assert CodeMap(n1, [false]) == map[1 := [false, false], 2 := [false, true]];
    assert CodeMap(Leaf(10, 0), [true]) == map[0 := [true]];
  }

  /**
   * The data of src/lib.rs:204, ten 0s and a 1, encodes to ten `true` bits
   * followed by two `false` bits: 12 bits, within the 22 of a fixed 2-bit
   * code.
   */
  lemma IntegerTableEncoding()
    ensures var m := map[0 := [true], 1 := [false, false], 2 := [false, true]];
      var data := IntegerData;
      && (forall k :: 0 <= k < |data| ==> data[k] in m)
      && Concat(m, data) == RepeatBits([true], 10) + [false, false]
      && |Concat(m, data)| == 12 <= 2 * |data|
  {
    var m := map[0 := [true], 1 := [false, false], 2 := [false, true]];
    var data := IntegerData;
    ConcatRepeated(m, 0, 10, [1], data);
    assert Concat(m, [1]) == [false, false] by {
      assert [1][1..] == [];
    }
    RepeatBitsLength([true], 10);
  }

  /** That encoding decodes back to the data (src/lib.rs:205-207). */
  lemma IntegerTableRoundTrip()
    ensures var tree := HuffmanTree(IntegerWeights);
      var data := IntegerData;
      && (forall k :: 0 <= k < |data| ==> data[k] in CodeMap(tree, []))
      && Concat(CodeMap(tree, []), data) == RepeatBits([true], 10) + [false, false]
      && DecodeBits(tree, Concat(CodeMap(tree, []), data)) == data
  {
    IntegerTableTree();
    IntegerTableCodes();
    IntegerTableEncoding();
    var tree := HuffmanTree(IntegerWeights);
    HuffmanCoder.TreeRoundTrip(tree, IntegerData);
  }

  /** First round for the string table: "howdy" and "hello" merge, "howdy" on the left. */
  lemma StringTableRoundOne()
    ensures MergeLowest([Leaf(2, "hello"), Leaf(3, "hey"), Leaf(1, "howdy")])
         == [Leaf(3, "hey"), Internal(3, Leaf(1, "howdy"), Leaf(2, "hello"))]
  {
    var hello, hey, howdy := Leaf(2, "hello"), Leaf(3, "hey"), Leaf(1, "howdy");
    SortThreeMiddleHeaviest(hello, hey, howdy);
    MergeThree([hey, hello, howdy]);
    MergeSorted([hello, hey, howdy], [hey, hello, howdy]);
  }

  /**
   * Second round for the string table: the merged node ties with "hey"; the
   * stable sort keeps it last, so it is popped first and goes left.
   */
  lemma StringTableRoundTwo()
    ensures MergeLowest([Leaf(3, "hey"), Internal(3, Leaf(1, "howdy"), Leaf(2, "hello"))])
         == [Internal(6, Internal(3, Leaf(1, "howdy"), Leaf(2, "hello")), Leaf(3, "hey"))]
  {
    var hey, n1 := Leaf(3, "hey"), Internal(3, Leaf(1, "howdy"), Leaf(2, "hello"));
    SortTwo(hey, n1);
    MergeTwo([hey, n1]);
    MergeSorted([hey, n1], [hey, n1]);
  }

  /**
   * The string table (src/lib.rs:222-226):
   * "howdy" and "hello" merge into a node of frequency 3, which then becomes
   * the left child of the root, "hey" the right.
   */
  lemma StringTableTree()
    ensures HuffmanTree(StringWeights)
         == Internal(6, Internal(3, Leaf(1, "howdy"), Leaf(2, "hello")), Leaf(3, "hey"))
  {
    var hello, hey, howdy := Leaf(2, "hello"), Leaf(3, "hey"), Leaf(1, "howdy");
    var n1 := Internal(3, howdy, hello);
    var n2 := Internal(6, n1, hey);
    assert LeafNodes(StringWeights) == [hello, hey, howdy];
    StringTableRoundOne();
    StringTableRoundTwo();
    BuildStep([hello, hey, howdy], [hey, n1]);
    BuildStep([hey, n1], [n2]);
    assert BuildTree([n2]) == n2;
  }

  /** The data of src/lib.rs:228 round-trips through that tree. */
  lemma StringTableRoundTrip()
    ensures var tree := HuffmanTree(StringWeights);
      var data := StringData;
      && (forall k :: 0 <= k < |data| ==> data[k] in CodeMap(tree, []))
      && DecodeBits(tree, Concat(CodeMap(tree, []), data)) == data
  {
    StringTableTree();
    var tree := HuffmanTree(StringWeights);
    HuffmanCoder.TreeRoundTrip(tree, StringData);
  }

  /** `n` copies of `code`, one after another. */
  function RepeatBits(code: seq<bool>, n: nat): seq<bool>
  {
    if n == 0 then [] else code + RepeatBits(code, n - 1)
  }

  lemma {:induction false} RepeatBitsLength(code: seq<bool>, n: nat)
    ensures |RepeatBits(code, n)| == n * |code|
  {
    if n > 0 {
      RepeatBitsLength(code, n - 1);
    }
  }

  /** `n` copies of `x` followed by `tail` encode to `n` copies of `x`'s code followed by `tail`'s. */
  lemma {:induction false} ConcatRepeated<S>(m: map<S, seq<bool>>, x: S, n: nat, tail: seq<S>, data: seq<S>)
    requires x in m
    requires forall k :: 0 <= k < |tail| ==> tail[k] in m
    requires data == seq(n, _ => x) + tail
    ensures forall k :: 0 <= k < |data| ==> data[k] in m
    ensures Concat(m, data) == RepeatBits(m[x], n) + Concat(m, tail)
  {
    if n > 0 {
      var rest := seq(n - 1, _ => x) + tail;
      assert data[1..] == rest;
      ConcatRepeated(m, x, n - 1, tail, rest);
    } else {
      assert data == tail;
    }
  }
}
