/**
 * The code tree (src/lib.rs:15-31). A node is either a leaf holding a symbol
 * and its frequency, or an internal node holding two children; the source's
 * struct with optional fields is only ever built in these two shapes.
 */
module CodeTree {
  import opened Results

  datatype Node<S> =
    | Leaf(freq: nat, value: S)
    | Internal(freq: nat, left: Node<S>, right: Node<S>)

  /** Every internal node's frequency is the sum of its children's. */
  ghost predicate WellFormed<S>(n: Node<S>)
  {
    match n
    case Leaf(_, _) => true
    case Internal(f, l, r) => f == l.freq + r.freq && WellFormed(l) && WellFormed(r)
  }

  /** The (symbol, frequency) pairs held by the leaves, counted with multiplicity. */
  function Leaves<S(==)>(n: Node<S>): multiset<(S, nat)>
  {
    match n
    case Leaf(f, v) => multiset{(v, f)}
    case Internal(_, l, r) => Leaves(l) + Leaves(r)
  }

  /** The symbols held by the leaves. */
  function Symbols<S>(n: Node<S>): set<S>
  {
    match n
    case Leaf(_, v) => {v}
    case Internal(_, l, r) => Symbols(l) + Symbols(r)
  }

  /** The child a bit selects: `false` is left, `true` is right. */
  function Child<S>(n: Node<S>, bit: bool): Node<S>
    requires n.Internal?
  {
    if bit then n.right else n.left
  }

  /**
   * The symbol at the end of the root-to-leaf path `p`, or `None` when `p`
   * does not end exactly at a leaf.
   */
  function PathTo<S>(n: Node<S>, p: seq<bool>): Option<S>
  {
    if p == [] then (if n.Leaf? then Some(n.value) else None)
    else if n.Leaf? then None
    else PathTo(Child(n, p[0]), p[1..])
  }

  /** `p` is a prefix of `q`. */
  predicate IsPrefix(p: seq<bool>, q: seq<bool>)
  {
    |p| <= |q| && q[..|p|] == p
  }

  lemma {:induction false} LeavesNonEmpty<S>(n: Node<S>)
    ensures |Leaves(n)| >= 1
    ensures n.Internal? ==> |Leaves(n)| >= 2
  {
    match n
    case Leaf(_, _) =>
    case Internal(_, l, r) =>
      LeavesNonEmpty(l);
      LeavesNonEmpty(r);
  }

  /** The symbols of a tree are exactly the symbols of its leaf pairs. */
  lemma {:induction false} SymbolsOfLeaves<S>(n: Node<S>)
    ensures Symbols(n) == set p | p in Leaves(n) :: p.0
  {
    match n
    case Leaf(f, v) =>
      assert (v, f) in Leaves(n);
    case Internal(_, l, r) =>
      SymbolsOfLeaves(l);
      SymbolsOfLeaves(r);
  }

  /**
   * Root-to-leaf paths are prefix-free: a path to a leaf is a prefix of
   * another path to a leaf only when the two are the same path.
   */
  lemma {:induction false} LeafPathsPrefixFree<S>(n: Node<S>, p: seq<bool>, q: seq<bool>)
    requires PathTo(n, p).Some? && PathTo(n, q).Some?
    requires IsPrefix(p, q)
    ensures p == q
  {
    if p != [] {
      assert q[0] == p[0] && q[1..][..|p| - 1] == p[1..];
      LeafPathsPrefixFree(Child(n, p[0]), p[1..], q[1..]);
    }
  }
}
