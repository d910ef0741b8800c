/**
 * Construction of the code tree from a frequency table (src/lib.rs:144-166).
 * Each round sorts the working list stably by descending frequency, pops the
 * two last (lowest-frequency) nodes and pushes their merge, the first popped
 * becoming the left child.
 */
module TreeBuilder {
  import opened Results
  import opened CodeTree
  import opened StableSort

  /** One leaf per weight, in input order (src/lib.rs:145-148). */
  function LeafNodes<S>(weights: seq<(S, nat)>): (ns: seq<Node<S>>)
    ensures |ns| == |weights|
    ensures forall i :: 0 <= i < |ns| ==>
      ns[i].Leaf? && ns[i].value == weights[i].0 && ns[i].freq == weights[i].1
  {
    seq(|weights|, i requires 0 <= i < |weights| => Leaf(weights[i].1, weights[i].0))
  }

  /**
   * All leaf pairs of a list of trees. The totals below recurse on the last
   * element, the end of the list where the merge loop pops and pushes.
   */
  function LeavesOf<S(==)>(ns: seq<Node<S>>): multiset<(S, nat)>
  {
    if ns == [] then multiset{} else LeavesOf(ns[..|ns| - 1]) + Leaves(ns[|ns| - 1])
  }

  /** Sum of the root frequencies of a list of trees. */
  function TotalFreq<S>(ns: seq<Node<S>>): nat
  {
    if ns == [] then 0 else TotalFreq(ns[..|ns| - 1]) + ns[|ns| - 1].freq
  }

  /** Sum of the frequencies of a weight table. */
  function SumWeights<S>(weights: seq<(S, nat)>): nat
  {
    if weights == [] then 0 else SumWeights(weights[..|weights| - 1]) + weights[|weights| - 1].1
  }

  ghost predicate AllWellFormed<S>(ns: seq<Node<S>>)
  {
    forall i :: 0 <= i < |ns| ==> WellFormed(ns[i])
  }

  lemma MultisetAssoc<X>(x: multiset<X>, y: multiset<X>, z: multiset<X>)
    ensures x + (y + z) == (x + y) + z
  {
  }

  lemma SingletonTotals<S>(x: Node<S>)
    ensures LeavesOf([x]) == Leaves(x)
    ensures TotalFreq([x]) == x.freq
  {
    assert [x][..0] == [];
  }

  lemma {:induction false} AppendLeaves<S>(a: seq<Node<S>>, b: seq<Node<S>>)
    ensures LeavesOf(a + b) == LeavesOf(a) + LeavesOf(b)
  {
    if b == [] {
      assert a + b == a;
    } else {
      var init, z := b[..|b| - 1], b[|b| - 1];
      assert LeavesOf(a + b) == LeavesOf(a + init) + Leaves(z) by {
        assert (a + b)[..|a + b| - 1] == a + init;
        assert (a + b)[|a + b| - 1] == z;
      }
      assert LeavesOf(a + init) == LeavesOf(a) + LeavesOf(init) by {
        AppendLeaves(a, init);
      }
      MultisetAssoc(LeavesOf(a), LeavesOf(init), Leaves(z));
    }
  }

  lemma {:induction false} AppendFreq<S>(a: seq<Node<S>>, b: seq<Node<S>>)
    ensures TotalFreq(a + b) == TotalFreq(a) + TotalFreq(b)
  {
    if b == [] {
      assert a + b == a;
    } else {
      AppendFreq(a, b[..|b| - 1]);
      assert (a + b)[..|a + b| - 1] == a + b[..|b| - 1];
    }
  }

  /** Putting a node in front of a list adds its leaves and frequency. */
  lemma ConsTotals<S>(y: Node<S>, t: seq<Node<S>>)
    ensures LeavesOf([y] + t) == Leaves(y) + LeavesOf(t)
    ensures TotalFreq([y] + t) == y.freq + TotalFreq(t)
  {
    SingletonTotals(y);
    AppendLeaves([y], t);
    AppendFreq([y], t);
  }

  /** A non-empty list's leaves are its head's plus its tail's. */
  lemma HeadTailLeaves<S>(s: seq<Node<S>>)
    requires s != []
    ensures LeavesOf(s) == Leaves(s[0]) + LeavesOf(s[1..])
  {
    assert s == [s[0]] + s[1..];
    ConsTotals(s[0], s[1..]);
  }

  /** Putting `y` in front of a list whose leaves are `x`'s plus `t`'s. */
  lemma ConsAfterInsertLeaves<S>(x: Node<S>, y: Node<S>, t: seq<Node<S>>, rest: seq<Node<S>>)
    requires LeavesOf(rest) == Leaves(x) + LeavesOf(t)
    ensures LeavesOf([y] + rest) == Leaves(x) + (Leaves(y) + LeavesOf(t))
  {
    var lx, ly, lt := Leaves(x), Leaves(y), LeavesOf(t);
    calc {
      LeavesOf([y] + rest);
      { ConsTotals(y, rest); }
      ly + (lx + lt);
      { MultisetAssoc(ly, lx, lt); }
      (ly + lx) + lt;
      { assert ly + lx == lx + ly; }
      (lx + ly) + lt;
      { MultisetAssoc(lx, ly, lt); }
      lx + (ly + lt);
    }
  }

  /** Inserting a node adds exactly its leaves. */
  lemma {:induction false} InsertLeaves<S>(x: Node<S>, s: seq<Node<S>>)
    ensures LeavesOf(Insert(x, s)) == Leaves(x) + LeavesOf(s)
  {
    if s == [] {
      SingletonTotals(x);
    } else if x.freq >= s[0].freq {
      assert Insert(x, s) == [x] + s;
      ConsTotals(x, s);
    } else {
      var y, t := s[0], s[1..];
      var rest := Insert(x, t);
      assert Insert(x, s) == [y] + rest;
      InsertLeaves(x, t);
      ConsAfterInsertLeaves(x, y, t, rest);
      HeadTailLeaves(s);
    }
  }

  /** Inserting a node adds exactly its frequency. */
  lemma {:induction false} InsertFreq<S>(x: Node<S>, s: seq<Node<S>>)
    ensures TotalFreq(Insert(x, s)) == x.freq + TotalFreq(s)
  {
    if s == [] {
      SingletonTotals(x);
    } else if x.freq >= s[0].freq {
      assert Insert(x, s) == [x] + s;
      ConsTotals(x, s);
    } else {
      var y, t := s[0], s[1..];
      var rest := Insert(x, t);
      assert Insert(x, s) == [y] + rest;
      InsertFreq(x, t);
      ConsTotals(y, rest);
      ConsTotals(y, t);
      assert s == [y] + t;
    }
  }

  /** Sorting neither loses nor adds leaves or frequency. */
  lemma {:induction false} SortTotals<S>(s: seq<Node<S>>)
    ensures LeavesOf(SortDesc(s)) == LeavesOf(s)
    ensures TotalFreq(SortDesc(s)) == TotalFreq(s)
  {
    if s != [] {
      var h, t := s[0], s[1..];
      SortTotals(t);
      InsertLeaves(h, SortDesc(t));
      InsertFreq(h, SortDesc(t));
      assert s == [h] + t;
      ConsTotals(h, t);
    }
  }

  /** Sorting keeps every node, so it keeps them well formed. */
  lemma SortWellFormed<S>(s: seq<Node<S>>)
    requires AllWellFormed(s)
    ensures AllWellFormed(SortDesc(s))
  {
    var r := SortDesc(s);
    forall i | 0 <= i < |r| ensures WellFormed(r[i]) {
      assert r[i] in multiset(s);
    }
  }

  /**
   * Pops the last node (`a`) and the one before it (`b`) and pushes their
   * merge, with `a` as the left child (src/lib.rs:152-161). The nodes below
   * the two popped ones are left as they were.
   */
  function PopTwoPushMerge<S>(s: seq<Node<S>>): (r: seq<Node<S>>)
    requires |s| >= 2
    ensures |r| == |s| - 1
    ensures r[..|s| - 2] == s[..|s| - 2]
    ensures r[|r| - 1].Internal? && r[|r| - 1].left == s[|s| - 1] && r[|r| - 1].right == s[|s| - 2]
    ensures r[|r| - 1].freq == s[|s| - 1].freq + s[|s| - 2].freq
  {
    s[..|s| - 2] + [Internal(s[|s| - 1].freq + s[|s| - 2].freq, s[|s| - 1], s[|s| - 2])]
  }

  lemma PopTwoPushMergeLeaves<S>(s: seq<Node<S>>)
    requires |s| >= 2
    ensures LeavesOf(PopTwoPushMerge(s)) == LeavesOf(s)
  {
    var n := |s|;
    var rest, b, a := s[..n - 2], s[n - 2], s[n - 1];
    var r := PopTwoPushMerge(s);
    assert LeavesOf(r) == LeavesOf(rest) + (Leaves(a) + Leaves(b)) by {
      assert r[..|r| - 1] == rest;
    }
    assert LeavesOf(s) == LeavesOf(rest) + Leaves(b) + Leaves(a) by {
      assert s[..n - 1][..n - 2] == rest;
    }
    MultisetAssoc(LeavesOf(rest), Leaves(b), Leaves(a));
  }

  lemma PopTwoPushMergeFreq<S>(s: seq<Node<S>>)
    requires |s| >= 2
    ensures TotalFreq(PopTwoPushMerge(s)) == TotalFreq(s)
  {
    var n := |s|;
    var r := PopTwoPushMerge(s);
    assert r[..|r| - 1] == s[..n - 2];
    assert s[..n - 1][..n - 2] == s[..n - 2];
  }

  lemma PopTwoPushMergeWellFormed<S>(s: seq<Node<S>>)
    requires |s| >= 2
    requires AllWellFormed(s)
    ensures AllWellFormed(PopTwoPushMerge(s))
  {
    var r := PopTwoPushMerge(s);
    forall i | 0 <= i < |r| ensures WellFormed(r[i]) {
      if i < |s| - 2 {
        assert r[i] == s[i];
      }
    }
  }

  /** One round of the loop body (src/lib.rs:151-161). */
  function MergeLowest<S(==)>(nodes: seq<Node<S>>): (r: seq<Node<S>>)
    requires |nodes| >= 2
    ensures |r| == |nodes| - 1
  {
    PopTwoPushMerge(SortDesc(nodes))
  }

  /**
   * The merged node is pushed last; its left child is the lowest-frequency
   * node, its right child the next lowest, and no node left in the list has
   * a lower frequency than either. The list loses exactly those two nodes.
   */
  lemma MergeTakesLowest<S>(nodes: seq<Node<S>>)
    requires |nodes| >= 2
    ensures var r := MergeLowest(nodes); var c := r[|r| - 1];
      && c.Internal?
      && c.freq == c.left.freq + c.right.freq
      && c.left.freq <= c.right.freq
      && (forall i :: 0 <= i < |r| - 1 ==> c.right.freq <= r[i].freq)
      && multiset(r[..|r| - 1]) + multiset{c.right} + multiset{c.left} == multiset(nodes)
  {
    var s := SortDesc(nodes);
    var n := |s|;
    var r := MergeLowest(nodes);
    assert r[..|r| - 1] == s[..n - 2];
    assert r[|r| - 1] == Internal(s[n - 1].freq + s[n - 2].freq, s[n - 1], s[n - 2]);
    assert multiset(s[..n - 2]) + multiset{s[n - 2]} + multiset{s[n - 1]} == multiset(nodes) by {
      assert s == s[..n - 2] + [s[n - 2]] + [s[n - 1]];
    }
    SortDescSorted(nodes);
  }

  /** A merge round keeps the trees well formed and keeps their leaves and total frequency. */
  lemma MergeLowestPreserves<S>(nodes: seq<Node<S>>)
    requires |nodes| >= 2
    requires AllWellFormed(nodes)
    ensures AllWellFormed(MergeLowest(nodes))
    ensures LeavesOf(MergeLowest(nodes)) == LeavesOf(nodes)
    ensures TotalFreq(MergeLowest(nodes)) == TotalFreq(nodes)
  {
    SortWellFormed(nodes);
    SortTotals(nodes);
    PopTwoPushMergeLeaves(SortDesc(nodes));
    PopTwoPushMergeFreq(SortDesc(nodes));
    PopTwoPushMergeWellFormed(SortDesc(nodes));
  }

  /**
   * The tree the loop ends with: merge rounds until one node remains. Its
   * leaves are the leaves of all the starting trees, and its root frequency
   * is their total frequency.
   */
  function BuildTree<S(==)>(nodes: seq<Node<S>>): (root: Node<S>)
    requires |nodes| >= 1
    ensures Leaves(root) == LeavesOf(nodes)
    ensures root.freq == TotalFreq(nodes)
    decreases |nodes|
  {
    if |nodes| == 1 then
      SingletonTotals(nodes[0]);
      assert nodes == [nodes[0]];
      nodes[0]
    else
      SortTotals(nodes);
      PopTwoPushMergeLeaves(SortDesc(nodes));
      PopTwoPushMergeFreq(SortDesc(nodes));
      BuildTree(MergeLowest(nodes))
  }

  /** Merge rounds on well-formed trees end with a well-formed tree. */
  lemma {:induction false} BuildTreeWellFormed<S>(nodes: seq<Node<S>>)
    requires |nodes| >= 1
    requires AllWellFormed(nodes)
    ensures WellFormed(BuildTree(nodes))
    decreases |nodes|
  {
    if |nodes| > 1 {
      MergeLowestPreserves(nodes);
      BuildTreeWellFormed(MergeLowest(nodes));
    }
  }

  /** The tree built from a non-empty weight table. */
  function HuffmanTree<S(==)>(weights: seq<(S, nat)>): Node<S>
    requires |weights| >= 1
  {
    BuildTree(LeafNodes(weights))
  }

  /**
   * The tree built from a weight table is well formed, holds exactly the
   * table's (symbol, weight) pairs as leaves, and has the total weight at
   * the root.
   */
  lemma HuffmanTreeTotals<S>(weights: seq<(S, nat)>)
    requires |weights| >= 1
    ensures WellFormed(HuffmanTree(weights))
    ensures Leaves(HuffmanTree(weights)) == multiset(weights)
    ensures HuffmanTree(weights).freq == SumWeights(weights)
  {
    LeafNodesTotals(weights);
    BuildTreeWellFormed(LeafNodes(weights));
  }

  lemma {:induction false} LeafNodesTotals<S>(weights: seq<(S, nat)>)
    ensures AllWellFormed(LeafNodes(weights))
    ensures LeavesOf(LeafNodes(weights)) == multiset(weights)
    ensures TotalFreq(LeafNodes(weights)) == SumWeights(weights)
  {
    if weights != [] {
      var init, last := weights[..|weights| - 1], weights[|weights| - 1];
      LeafNodesTotals(init);
      assert LeafNodes(weights)[..|weights| - 1] == LeafNodes(init);
      assert LeafNodes(weights)[|weights| - 1] == Leaf(last.1, last.0);
      assert multiset(weights) == multiset(init) + multiset{last} by {
        assert weights == init + [last];
      }
    }
  }

  /**
   * The body of the merge loop (src/lib.rs:151-161): sort, pop the lowest
   * node `a`, pop the next lowest `b`, push their merge with `a` on the left.
   * The loop guard guarantees two nodes, so the pops never fail.
   */
  method MergeRound<S(==)>(nodes: seq<Node<S>>) returns (merged: seq<Node<S>>)
    requires |nodes| >= 2
    ensures merged == MergeLowest(nodes)
  {
    merged := SortDesc(nodes);
    var a := merged[|merged| - 1];
    merged := merged[..|merged| - 1];
    var b := merged[|merged| - 1];
    merged := merged[..|merged| - 1];
    merged := merged + [Internal(a.freq + b.freq, a, b)];
  }

  /**
   * `Huffman::new`'s tree construction (src/lib.rs:145-166). An empty table
   * gives `InvalidWeights`; otherwise the result is the tree the merge rounds
   * produce: well formed, holding exactly the input pairs as its leaves, with
   * the total input frequency at the root.
   */
  method Build<S(==)>(weights: seq<(S, nat)>) returns (r: Result<Node<S>, S>)
    ensures r.Err? <==> weights == []
    ensures r.Err? ==> r.error == InvalidWeights(ExpectedRootNode)
    ensures r.Ok? ==> r.value == HuffmanTree(weights)
    ensures r.Ok? ==> WellFormed(r.value)
    ensures r.Ok? ==> Leaves(r.value) == multiset(weights)
    ensures r.Ok? ==> r.value.freq == SumWeights(weights)
  {
    var nodes := LeafNodes(weights);
    while |nodes| > 1
      invariant |nodes| == 0 <==> weights == []
      invariant |nodes| > 0 ==> BuildTree(nodes) == HuffmanTree(weights)
    {
      nodes := MergeRound(nodes);
    }
    if |nodes| == 0 {
      return Err(InvalidWeights(ExpectedRootNode));
    }
    var root := nodes[|nodes| - 1];
    HuffmanTreeTotals(weights);
    r := Ok(root);
  }
}
