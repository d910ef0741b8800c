/**
 * The ordering step of the tree builder: a stable sort of the working list
 * by descending frequency (src/lib.rs:151). The library routine is not
 * verified here; it is specified by a stable insertion sort and the
 * properties a caller relies on: the result is ordered, it is a permutation
 * of the input, and nodes of equal frequency keep their relative order.
 */
module StableSort {
  import opened CodeTree

  /** Frequencies never increase from left to right. */
  ghost predicate SortedDesc<S>(s: seq<Node<S>>)
  {
    forall i, j :: 0 <= i < j < |s| ==> s[i].freq >= s[j].freq
  }

  /** The nodes of `s` whose frequency is `f`, in their order in `s`. */
  function WithFreq<S>(s: seq<Node<S>>, f: nat): seq<Node<S>>
  {
    if s == [] then []
    else (if s[0].freq == f then [s[0]] else []) + WithFreq(s[1..], f)
  }

  /**
   * Places `x` in front of the first node whose frequency is at most its own,
   * so that `x` precedes the nodes of equal frequency that came after it.
   */
  function Insert<S(==)>(x: Node<S>, s: seq<Node<S>>): (r: seq<Node<S>>)
    ensures multiset(r) == multiset(s) + multiset{x}
  {
    if s == [] then [x]
    else if x.freq >= s[0].freq then [x] + s
    else
      assert s == [s[0]] + s[1..];
      [s[0]] + Insert(x, s[1..])
  }

  /** Inserting a node no heavier than `m` into nodes no heavier than `m` keeps that bound. */
  lemma {:induction false} InsertBounded<S>(x: Node<S>, s: seq<Node<S>>, m: nat)
    requires x.freq <= m
    requires forall k :: 0 <= k < |s| ==> s[k].freq <= m
    ensures forall k :: 0 <= k < |Insert(x, s)| ==> Insert(x, s)[k].freq <= m
  {
    if s != [] && x.freq < s[0].freq {
      InsertBounded(x, s[1..], m);
    }
  }

  lemma {:induction false} InsertSorted<S>(x: Node<S>, s: seq<Node<S>>)
    requires SortedDesc(s)
    ensures SortedDesc(Insert(x, s))
  {
    if s == [] {
    } else if x.freq >= s[0].freq {
      var r := [x] + s;
      forall i, j | 0 <= i < j < |r| ensures r[i].freq >= r[j].freq {
        if i > 0 {
          assert r[i] == s[i - 1] && r[j] == s[j - 1];
        } else {
          assert r[j] == s[j - 1];
        }
      }
    } else {
      var rest := Insert(x, s[1..]);
      InsertSorted(x, s[1..]);
      InsertBounded(x, s[1..], s[0].freq);
      var r := [s[0]] + rest;
      forall i, j | 0 <= i < j < |r| ensures r[i].freq >= r[j].freq {
        if i > 0 {
          assert r[i] == rest[i - 1] && r[j] == rest[j - 1];
        } else {
          assert r[j] == rest[j - 1];
        }
      }
    }
  }

  /** Stable sort by descending frequency. */
  function SortDesc<S(==)>(s: seq<Node<S>>): (r: seq<Node<S>>)
    ensures multiset(r) == multiset(s)
    ensures |r| == |s|
  {
    if s == [] then []
    else
      assert s == [s[0]] + s[1..];
      Insert(s[0], SortDesc(s[1..]))
  }

  /** The sort orders by descending frequency. */
  lemma {:induction false} SortDescSorted<S>(s: seq<Node<S>>)
    ensures SortedDesc(SortDesc(s))
  {
    if s != [] {
      SortDescSorted(s[1..]);
      InsertSorted(s[0], SortDesc(s[1..]));
    }
  }

  lemma WithFreqCons<S>(y: Node<S>, t: seq<Node<S>>, f: nat)
    ensures WithFreq([y] + t, f) == (if y.freq == f then [y] else []) + WithFreq(t, f)
  {
    assert ([y] + t)[1..] == t;
  }

  lemma {:induction false} InsertStable<S>(x: Node<S>, s: seq<Node<S>>, f: nat)
    ensures WithFreq(Insert(x, s), f) == WithFreq([x] + s, f)
  {
    if s == [] {
      assert Insert(x, s) == [x] + s;
    } else if x.freq >= s[0].freq {
      assert Insert(x, s) == [x] + s;
    } else {
      var y, t := s[0], s[1..];
      assert s == [y] + t;
      var rest := Insert(x, t);
      assert Insert(x, s) == [y] + rest;
      InsertStable(x, t, f);
      var ey := if y.freq == f then [y] else [];
      var ex := if x.freq == f then [x] else [];
      assert ex == [] || ey == [];
      calc {
        WithFreq(Insert(x, s), f);
        { WithFreqCons(y, rest, f); }
        ey + WithFreq(rest, f);
        { WithFreqCons(x, t, f); }
        ey + (ex + WithFreq(t, f));
        ex + (ey + WithFreq(t, f));
        { WithFreqCons(y, t, f); }
        ex + WithFreq(s, f);
        { WithFreqCons(x, s, f); }
        WithFreq([x] + s, f);
      }
    }
  }

  /** Sorting keeps, for every frequency, the input order of the nodes having it. */
  lemma {:induction false} SortDescStable<S>(s: seq<Node<S>>, f: nat)
    ensures WithFreq(SortDesc(s), f) == WithFreq(s, f)
  {
    if s != [] {
      SortDescStable(s[1..], f);
      InsertStable(s[0], SortDesc(s[1..]), f);
      WithFreqCons(s[0], SortDesc(s[1..]), f);
      WithFreqCons(s[0], s[1..], f);
      assert [s[0]] + s[1..] == s;
    }
  }
}
