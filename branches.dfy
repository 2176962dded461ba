/**
 * The leaves of an FP-tree in the order test_tree's depth-first walk
 * reaches them, the nodes below a node, and the itemset list the walk
 * produces for each root-to-leaf branch with combine_string as written.
 */
module Branches {
  import opened TreeSpec
  import opened TreeFacts
  import opened TreeLog
  import opened Combinations

  /** Each listed child names the node listing it as its parent. */
  ghost predicate ChildParents(nodes: seq<Node>)
    requires Shaped(nodes)
  {
    forall n, k :: 0 <= n < |nodes| && 0 <= k < |nodes[n].children| ==> nodes[nodes[n].children[k]].parent == n
  }

  /** The leaves reached from node n, children visited in list order. */
  ghost function Leaves(nodes: seq<Node>, n: int): (r: seq<int>)
    requires Shaped(nodes) && 0 <= n < |nodes|
    decreases |nodes| - n, 1, 0
    ensures |r| >= 1
    ensures forall i :: 0 <= i < |r| ==> n <= r[i] < |nodes| && nodes[r[i]].children == []
  {
    if nodes[n].children == [] then [n] else LeavesAll(nodes, nodes[n].children, n)
  }

  /** The leaves reached from each of the children cs of node `above`, one after the other. */
  ghost function LeavesAll(nodes: seq<Node>, cs: seq<int>, above: int): (r: seq<int>)
    requires Shaped(nodes) && 0 <= above && forall k :: 0 <= k < |cs| ==> above < cs[k] < |nodes|
    decreases |nodes| - above, 0, |cs|
    ensures cs != [] ==> |r| >= 1
    ensures forall i :: 0 <= i < |r| ==> above < r[i] < |nodes| && nodes[r[i]].children == []
  {
    if cs == [] then [] else LeavesAll(nodes, cs[..|cs| - 1], above) + Leaves(nodes, cs[|cs| - 1])
  }

  /** Node n and the nodes reachable from it through child lists. */
  ghost function Sub(nodes: seq<Node>, n: int): (r: set<int>)
    requires Shaped(nodes) && 0 <= n < |nodes|
    decreases |nodes| - n, 1, 0
    ensures n in r && forall m :: m in r ==> n <= m < |nodes|
  {
    {n} + SubAll(nodes, nodes[n].children, n)
  }

  ghost function SubAll(nodes: seq<Node>, cs: seq<int>, above: int): (r: set<int>)
    requires Shaped(nodes) && 0 <= above && forall k :: 0 <= k < |cs| ==> above < cs[k] < |nodes|
    decreases |nodes| - above, 0, |cs|
    ensures forall m :: m in r ==> above < m < |nodes|
  {
    if cs == [] then {} else SubAll(nodes, cs[..|cs| - 1], above) + Sub(nodes, cs[|cs| - 1])
  }

  /** m lies below n by parent links (or is n). */
  ghost predicate Below(nodes: seq<Node>, n: int, m: int)
    requires ParentsBelow(nodes) && 0 <= n && 0 <= m < |nodes|
    decreases m
  {
    m == n || (m > n && Below(nodes, n, nodes[m].parent))
  }

  /**
   * What test_tree emits for each of the leaves ls: the itemsets that
   * combine_string, as written, builds from the leaf's branch (nothing for
   * an id that is not a non-root node).
   */
  ghost function Combos(nodes: seq<Node>, ls: seq<int>): (r: seq<seq<seq<int>>>)
    requires ParentsBelow(nodes)
    ensures |r| == |ls|
  {
    if ls == [] then []
    else Combos(nodes, ls[..|ls| - 1]) + [BranchCombos(nodes, ls[|ls| - 1])]
  }

  /** The itemsets combine_string, as written, builds from the branch from the root to node l. */
  ghost function BranchCombos(nodes: seq<Node>, l: int): seq<seq<int>>
    requires ParentsBelow(nodes)
  {
    if 1 <= l < |nodes| then
      PathLength(nodes, l);
      CombineAsWritten(Path(nodes, l), |Path(nodes, l)| - 1, [])
    else []
  }

  /** On a branch of at most three items the emitted list holds every itemset of the branch. */
  lemma BranchCombosShort(nodes: seq<Node>, l: int)
    requires ParentsBelow(nodes) && 1 <= l < |nodes| && |Path(nodes, l)| <= 3
    ensures |Path(nodes, l)| >= 1
    ensures BranchCombos(nodes, l) == CombineAll(Path(nodes, l), |Path(nodes, l)| - 1, [])
  {
    PathLength(nodes, l);
    AsWrittenAgreesUpToTwo(Path(nodes, l), |Path(nodes, l)| - 1);
  }

  /**
   * On a branch of four or more distinct items the emitted list lacks the
   * itemset of the branch's last two items, although it selects items of
   * the branch in order.
   */
  lemma BranchCombosLosePair(nodes: seq<Node>, l: int)
    requires ParentsBelow(nodes) && 1 <= l < |nodes| && |Path(nodes, l)| >= 4
    requires forall a, b :: 0 <= a < b < |Path(nodes, l)| ==> Path(nodes, l)[a] != Path(nodes, l)[b]
    ensures var p := Path(nodes, l);
      [p[|p| - 2], p[|p| - 1]] !in BranchCombos(nodes, l)
  {
    var p := Path(nodes, l);
    AsWrittenLosesPair(p, |p| - 1);
  }

  lemma {:induction false} CombosAppend(nodes: seq<Node>, ls: seq<int>, ms: seq<int>)
    requires ParentsBelow(nodes)
    decreases |ms|
    ensures Combos(nodes, ls + ms) == Combos(nodes, ls) + Combos(nodes, ms)
  {
    if ms == [] {
      assert ls + ms == ls;
    } else {
      var front := ms[..|ms| - 1];
      assert (ls + ms)[..|ls + ms| - 1] == ls + front;
      assert (ls + ms)[|ls + ms| - 1] == ms[|ms| - 1];
      CombosAppend(nodes, ls, front);
    }
  }

  /** Combinations of branches depend only on items and parents. */
  lemma {:induction false} CombosFrame(a: seq<Node>, b: seq<Node>, ls: seq<int>)
    requires ParentsBelow(a) && ParentsBelow(b) && Extends(a, b) && |a| == |b|
    ensures Combos(b, ls) == Combos(a, ls)
  {
    if ls != [] {
      CombosFrame(a, b, ls[..|ls| - 1]);
      var l := ls[|ls| - 1];
      if 1 <= l < |a| {
        PathFrame(a, b, l);
      }
    }
  }

  /** With numPath kept as leaf counts, numPath is the number of leaves the walk reaches. */
  lemma {:induction false} LeafCount(nodes: seq<Node>, n: int)
    requires Shaped(nodes) && PathSums(nodes) && 0 <= n < |nodes|
    decreases |nodes| - n, 1, 0
    ensures nodes[n].numPath == |Leaves(nodes, n)|
  {
    assert nodes[n].numPath == LeafSum(nodes, n);
    if nodes[n].children != [] {
      LeafCountAll(nodes, nodes[n].children, n);
    }
  }

  lemma {:induction false} LeafCountAll(nodes: seq<Node>, cs: seq<int>, above: int)
    requires Shaped(nodes) && PathSums(nodes) && 0 <= above && forall k :: 0 <= k < |cs| ==> above < cs[k] < |nodes|
    decreases |nodes| - above, 0, |cs|
    ensures ChildSum(nodes, cs) == |LeavesAll(nodes, cs, above)|
  {
    if cs != [] {
      LeafCountAll(nodes, cs[..|cs| - 1], above);
      LeafCount(nodes, cs[|cs| - 1]);
    }
  }

  /** Leaves and subtrees only depend on the child lists of the nodes in the subtree. */
  lemma {:induction false} SubFrame(a: seq<Node>, b: seq<Node>, n: int)
    requires Shaped(a) && Shaped(b) && |a| == |b| && 0 <= n < |a|
    requires forall m :: m in Sub(a, n) ==> b[m].children == a[m].children
    decreases |a| - n, 1, 0
    ensures Sub(b, n) == Sub(a, n) && Leaves(b, n) == Leaves(a, n)
  {
    SubAllFrame(a, b, a[n].children, n);
  }

  lemma {:induction false} SubAllFrame(a: seq<Node>, b: seq<Node>, cs: seq<int>, above: int)
    requires Shaped(a) && Shaped(b) && |a| == |b| && 0 <= above && forall k :: 0 <= k < |cs| ==> above < cs[k] < |a|
    requires forall m :: m in SubAll(a, cs, above) ==> b[m].children == a[m].children
    decreases |a| - above, 0, |cs|
    ensures SubAll(b, cs, above) == SubAll(a, cs, above) && LeavesAll(b, cs, above) == LeavesAll(a, cs, above)
  {
    if cs != [] {
      SubAllFrame(a, b, cs[..|cs| - 1], above);
      SubFrame(a, b, cs[|cs| - 1]);
    }
  }

  /** Reaching m through child lists from n means n is an ancestor of m. */
  lemma {:induction false} SubBelow(nodes: seq<Node>, n: int, m: int)
    requires Shaped(nodes) && ChildParents(nodes) && 0 <= n < |nodes| && m in Sub(nodes, n)
    decreases |nodes| - n, 1, 0
    ensures Below(nodes, n, m)
  {
    if m != n {
      SubAllBelow(nodes, nodes[n].children, n, m);
    }
  }

  lemma {:induction false} SubAllBelow(nodes: seq<Node>, cs: seq<int>, above: int, m: int)
    requires Shaped(nodes) && ChildParents(nodes) && 0 <= above < |nodes|
    requires forall k :: 0 <= k < |cs| ==> above < cs[k] < |nodes| && nodes[cs[k]].parent == above
    requires m in SubAll(nodes, cs, above)
    decreases |nodes| - above, 0, |cs|
    ensures Below(nodes, above, m)
  {
    var c := cs[|cs| - 1];
    if m in Sub(nodes, c) {
      SubBelow(nodes, c, m);
      BelowStep(nodes, above, c, m);
    } else {
      SubAllBelow(nodes, cs[..|cs| - 1], above, m);
    }
  }

  /** Below a child of n is below n. */
  lemma {:induction false} BelowStep(nodes: seq<Node>, n: int, c: int, m: int)
    requires ParentsBelow(nodes) && 0 <= n < c < |nodes| && nodes[c].parent == n && 0 <= m < |nodes|
    requires Below(nodes, c, m)
    decreases m
    ensures Below(nodes, n, m)
  {
    if m != c {
      BelowStep(nodes, n, c, nodes[m].parent);
    }
  }

  /** Two ancestors of one node are ancestor and descendant of each other. */
  lemma {:induction false} BelowOrdered(nodes: seq<Node>, x: int, y: int, m: int)
    requires ParentsBelow(nodes) && 0 <= m < |nodes| && 0 <= x <= y < |nodes|
    requires Below(nodes, x, m) && Below(nodes, y, m)
    decreases m
    ensures Below(nodes, x, y)
  {
    if m != y {
      BelowOrdered(nodes, x, y, nodes[m].parent);
    }
  }

  /** The subtrees of two different children of one node share no node. */
  lemma SiblingSubsDisjoint(nodes: seq<Node>, n: int, x: int, y: int)
    requires Shaped(nodes) && ChildParents(nodes) && 0 <= n < |nodes|
    requires x in nodes[n].children && y in nodes[n].children && x != y
    ensures Sub(nodes, x) !! Sub(nodes, y)
  {
    var i :| 0 <= i < |nodes[n].children| && nodes[n].children[i] == x;
    var j :| 0 <= j < |nodes[n].children| && nodes[n].children[j] == y;
    forall m | m in Sub(nodes, x) && m in Sub(nodes, y) ensures false {
      SubBelow(nodes, x, m);
      SubBelow(nodes, y, m);
      if x < y {
        BelowOrdered(nodes, x, y, m);
      } else {
        BelowOrdered(nodes, y, x, m);
      }
      assert false;
    }
  }
}
