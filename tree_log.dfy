/**
 * What the FP-tree records about the transactions inserted so far.  With
 * L the sorted projections inserted from the root, in order:
 *  - the count of every non-root node is the number of entries of L that
 *    its root-to-node item path is a prefix of (Logged);
 *  - every entry of L is the item path of some node (Logged);
 *  - every non-root node lies on some entry of L, so no node has count 0
 *    (Logged, LoggedCountsPositive);
 *  - every node's numPath is 1 for a leaf and the sum over its children
 *    otherwise, that is, the number of leaves below it (PathSums).
 * InsertLogged shows that one insertion from the root with count 1 keeps
 * all three for L extended by the inserted items.
 */
module TreeLog {
  import opened TreeSpec
  import opened TreeFacts
  import opened InsertEffect
  import opened InsertChains
  import opened InsertShape

  /** The number of entries of L that q is a prefix of. */
  ghost function Through(L: seq<seq<int>>, q: seq<int>): (r: nat)
    ensures r <= |L|
  {
    if L == [] then 0 else Through(L[..|L| - 1], q) + (if q <= L[|L| - 1] then 1 else 0)
  }

  /** The numPath values of the nodes cs, added up. */
  ghost function ChildSum(nodes: seq<Node>, cs: seq<int>): int
    requires forall k :: 0 <= k < |cs| ==> 0 <= cs[k] < |nodes|
  {
    if cs == [] then 0 else ChildSum(nodes, cs[..|cs| - 1]) + nodes[cs[|cs| - 1]].numPath
  }

  /** The number of leaves below node n if the numPath of its children are theirs: 1 for a leaf, their sum otherwise. */
  ghost function LeafSum(nodes: seq<Node>, n: int): int
    requires Shaped(nodes) && 0 <= n < |nodes|
  {
    if nodes[n].children == [] then 1 else ChildSum(nodes, nodes[n].children)
  }

  /** A leaf has numPath 1 and any other node the sum of its children's. */
  ghost predicate PathSums(nodes: seq<Node>)
    requires Shaped(nodes)
  {
    forall n {:trigger LeafSum(nodes, n)} :: 0 <= n < |nodes| ==> nodes[n].numPath == LeafSum(nodes, n)
  }

  /** Some node has q as its item path. */
  ghost predicate Covers(nodes: seq<Node>, q: seq<int>)
    requires ParentsBelow(nodes)
  {
    exists m :: 0 <= m < |nodes| && Path(nodes, m) == q
  }

  /** q is a prefix of some entry of L. */
  ghost predicate OnLog(L: seq<seq<int>>, q: seq<int>)
  {
    exists j :: 0 <= j < |L| && q <= L[j]
  }

  /** Node counts and node paths account for the inserted item sequences L. */
  ghost predicate Counted(a: Tree, L: seq<seq<int>>)
    requires ParentsBelow(a.nodes)
  {
    && (forall n {:trigger a.nodes[n].count} :: 1 <= n < |a.nodes| ==> a.nodes[n].count == Through(L, Path(a.nodes, n)))
    && (forall j :: 0 <= j < |L| ==> Covers(a.nodes, L[j]))
  }

  /** Every non-root node lies on some entry of L. */
  ghost predicate AllOnLog(a: Tree, L: seq<seq<int>>)
    requires ParentsBelow(a.nodes)
  {
    forall n {:trigger OnLog(L, Path(a.nodes, n))} :: 1 <= n < |a.nodes| ==> OnLog(L, Path(a.nodes, n))
  }

  /** The tree holds the inserted item sequences L and nothing else. */
  ghost predicate Logged(a: Tree, L: seq<seq<int>>)
    requires ParentsBelow(a.nodes)
  {
    Counted(a, L) && AllOnLog(a, L)
  }

  /**
   * D is the walk insert_tree makes from the root for the items P: each
   * node a child of the one before holding the next item, and the last
   * one without a child for the next item when items are left over.
   */
  ghost predicate Walk(nodes: seq<Node>, P: seq<int>, D: seq<int>)
    requires Shaped(nodes)
  {
    && 1 <= |D| && |D| - 1 <= |P| && D[0] == 0
    && (forall i :: 0 <= i < |D| ==> 0 <= D[i] < |nodes|)
    && (forall i, j {:trigger D[i], D[j]} :: 0 <= i && j == i + 1 && j < |D| ==>
          D[j] in nodes[D[i]].children && nodes[D[j]].item == P[i])
    && (|D| - 1 < |P| ==> ChildWith(nodes, nodes[D[|D| - 1]].children, P[|D| - 1]) == NULL)
  }

  lemma ThroughAppend(L: seq<seq<int>>, P: seq<int>, q: seq<int>)
    ensures Through(L + [P], q) == Through(L, q) + (if q <= P then 1 else 0)
  {
    assert (L + [P])[..|L|] == L;
  }

  /** A sequence that is a prefix of some entry of L is counted at least once. */
  lemma {:induction false} ThroughSome(L: seq<seq<int>>, q: seq<int>)
    requires OnLog(L, q)
    ensures Through(L, q) >= 1
  {
    var j :| 0 <= j < |L| && q <= L[j];
    if j < |L| - 1 {
      assert L[..|L| - 1][j] == L[j];
      ThroughSome(L[..|L| - 1], q);
    }
  }

  /** In a logged tree every non-root node has a positive count. */
  lemma LoggedCountsPositive(a: Tree, L: seq<seq<int>>)
    requires ParentsBelow(a.nodes) && Logged(a, L)
    ensures forall n :: 1 <= n < |a.nodes| ==> a.nodes[n].count >= 1
  {
    forall n | 1 <= n < |a.nodes| ensures a.nodes[n].count >= 1 {
      ThroughSome(L, Path(a.nodes, n));
    }
  }

  /** A tree that logs nothing is the root alone. */
  lemma EmptyLogRootAlone(a: Tree)
    requires ParentsBelow(a.nodes) && Logged(a, [])
    ensures |a.nodes| <= 1
  {
    assert 1 < |a.nodes| ==> OnLog([], Path(a.nodes, 1));
  }

  /** A sequence that is a prefix of no entry of L is counted by none. */
  lemma {:induction false} ThroughNone(L: seq<seq<int>>, q: seq<int>)
    requires forall j :: 0 <= j < |L| ==> !(q <= L[j])
    ensures Through(L, q) == 0
  {
    if L != [] {
      ThroughNone(L[..|L| - 1], q);
    }
  }

  lemma {:induction false} ChildSumFrame(a: seq<Node>, b: seq<Node>, cs: seq<int>)
    requires forall k :: 0 <= k < |cs| ==> 0 <= cs[k] < |a| && cs[k] < |b| && b[cs[k]].numPath == a[cs[k]].numPath
    ensures ChildSum(b, cs) == ChildSum(a, cs)
  {
    if cs != [] {
      ChildSumFrame(a, b, cs[..|cs| - 1]);
    }
  }

  /** Raising the numPath of one of the distinct nodes cs by d raises their sum by d. */
  lemma {:induction false} ChildSumBump(a: seq<Node>, b: seq<Node>, cs: seq<int>, c: int, d: int)
    requires forall k :: 0 <= k < |cs| ==> 0 <= cs[k] < |a| && cs[k] < |b|
    requires forall k, l :: 0 <= k < l < |cs| ==> cs[k] != cs[l]
    requires c in cs && 0 <= c < |a| && c < |b| && b[c].numPath == a[c].numPath + d
    requires forall k :: 0 <= k < |cs| && cs[k] != c ==> b[cs[k]].numPath == a[cs[k]].numPath
    ensures ChildSum(b, cs) == ChildSum(a, cs) + d
  {
    var front := cs[..|cs| - 1];
    if cs[|cs| - 1] == c {
      assert c !in front;
      ChildSumFrame(a, b, front);
    } else {
      ChildSumBump(a, b, front, c, d);
    }
  }

  /** Siblings hold distinct items and so are distinct nodes. */
  lemma ChildrenDistinct(nodes: seq<Node>, n: int)
    requires Shaped(nodes) && SiblingsDistinct(nodes) && 0 <= n < |nodes|
    ensures forall k, l :: 0 <= k < l < |nodes[n].children| ==> nodes[n].children[k] != nodes[n].children[l]
  {
    forall k, l | 0 <= k < l < |nodes[n].children| ensures nodes[n].children[k] != nodes[n].children[l] {
      assert nodes[nodes[n].children[k]].item != nodes[nodes[n].children[l]].item;
    }
  }

  /** The parent of a listed child is the node listing it. */
  lemma ParentOf(nodes: seq<Node>, n: int, c: int)
    requires Shaped(nodes) && ChildrenLinked(nodes) && 0 <= n < |nodes| && c in nodes[n].children
    ensures n < c < |nodes| && nodes[c].parent == n
  {
    var k :| 0 <= k < |nodes[n].children| && nodes[n].children[k] == c;
  }

  /** The walk runs through increasing node ids. */
  lemma WalkIncreasing(nodes: seq<Node>, P: seq<int>, D: seq<int>)
    requires Shaped(nodes) && ChildrenLinked(nodes) && Walk(nodes, P, D)
    ensures forall i, j :: 0 <= i < j < |D| ==> D[i] < D[j]
  {
    forall i, j | 0 <= i && j == i + 1 && j < |D| ensures D[i] < D[j] {
      ParentOf(nodes, D[i], D[j]);
    }
    forall i, j | 0 <= i < j < |D| ensures D[i] < D[j] {
      StepsUp(D, i, j);
    }
  }

  lemma {:induction false} StepsUp(D: seq<int>, i: int, j: int)
    requires forall i, j {:trigger D[i], D[j]} :: 0 <= i && j == i + 1 && j < |D| ==> D[i] < D[j]
    requires 0 <= i < j < |D|
    decreases j - i
    ensures D[i] < D[j]
  {
    if i + 1 < j {
      StepsUp(D, i + 1, j);
    }
  }

  /** A child of some node that lies on the walk follows its parent there. */
  lemma WalkParent(nodes: seq<Node>, P: seq<int>, D: seq<int>, n: int, c: int) returns (i: int)
    requires Shaped(nodes) && ChildrenLinked(nodes) && Walk(nodes, P, D)
    requires 0 <= n < |nodes| && c in nodes[n].children && c in D
    ensures 1 <= i < |D| && D[i] == c && D[i - 1] == n
  {
    i :| 0 <= i < |D| && D[i] == c;
    ParentOf(nodes, n, c);
    assert i != 0;
    ParentOf(nodes, D[i - 1], c);
  }

  /** The i-th node of the walk has the first i items as its path. */
  lemma {:induction false} WalkPath(nodes: seq<Node>, P: seq<int>, D: seq<int>, i: int)
    requires Shaped(nodes) && ChildrenLinked(nodes) && Walk(nodes, P, D) && 0 <= i < |D|
    decreases i
    ensures Path(nodes, D[i]) == P[..i]
  {
    if i > 0 {
      WalkPath(nodes, P, D, i - 1);
      ParentOf(nodes, D[i - 1], D[i]);
      assert P[..i] == P[..i - 1] + [P[i - 1]];
    }
  }

  /** When the walk stops short of the end of P, no node has the items up to and including the next one as its path. */
  lemma NoNodeBeyondWalk(nodes: seq<Node>, P: seq<int>, D: seq<int>, m: int)
    requires Shaped(nodes) && ChildrenLinked(nodes) && SiblingsDistinct(nodes) && Walk(nodes, P, D)
    requires |D| - 1 < |P| && 0 <= m < |nodes|
    ensures Path(nodes, m) != P[..|D|]
  {
    var k := |D| - 1;
    var tk := D[k];
    PathLength(nodes, m);
    if m != 0 && |Path(nodes, m)| == |D| {
      var q := nodes[m].parent;
      assert Path(nodes, m) == Path(nodes, q) + [nodes[m].item];
      if Path(nodes, q) == P[..k] {
        WalkPath(nodes, P, D, k);
        PathsDistinctAll(nodes);
        assert q == tk;
        assert m in nodes[tk].children;
        assert nodes[m].item != P[k];
        assert Path(nodes, m)[k] != P[..|D|][k];
      } else {
        assert Path(nodes, m)[..k] != P[..|D|][..k];
      }
    }
  }

  /** A node other than the root lies on the walk exactly when its path is a prefix of P. */
  lemma OnWalk(nodes: seq<Node>, P: seq<int>, D: seq<int>, m: int)
    requires Shaped(nodes) && ChildrenLinked(nodes) && SiblingsDistinct(nodes) && Walk(nodes, P, D)
    requires 1 <= m < |nodes|
    ensures m in D[1..] <==> Path(nodes, m) <= P
  {
    if m in D[1..] {
      var i :| 1 <= i < |D| && D[i] == m;
      WalkPath(nodes, P, D, i);
    }
    if Path(nodes, m) <= P {
      PrefixOnWalk(nodes, P, D, m);
    }
  }

  /** A node whose path is a prefix of P is reached by the walk. */
  lemma PrefixOnWalk(nodes: seq<Node>, P: seq<int>, D: seq<int>, m: int)
    requires Shaped(nodes) && ChildrenLinked(nodes) && SiblingsDistinct(nodes) && Walk(nodes, P, D)
    requires 1 <= m < |nodes| && Path(nodes, m) <= P
    ensures m in D[1..]
  {
    var j := |Path(nodes, m)|;
    PrefixWithinWalk(nodes, P, D, m);
    WalkPath(nodes, P, D, j);
    PathsDistinctAll(nodes);
    assert Path(nodes, m) == P[..j];
    assert m == D[j];
    assert D[j] == D[1..][j - 1];
  }

  /** A prefix of P that is a node's path is no longer than the walk. */
  lemma PrefixWithinWalk(nodes: seq<Node>, P: seq<int>, D: seq<int>, m: int)
    requires Shaped(nodes) && ChildrenLinked(nodes) && SiblingsDistinct(nodes) && Walk(nodes, P, D)
    requires 1 <= m < |nodes| && Path(nodes, m) <= P
    ensures 1 <= |Path(nodes, m)| < |D|
  {
    PathLength(nodes, m);
    if |Path(nodes, m)| >= |D| {
      AncestorPath(nodes, m, |D|);
      var m' :| 0 <= m' < |nodes| && Path(nodes, m') == Path(nodes, m)[..|D|];
      assert Path(nodes, m)[..|D|] == P[..|D|];
      NoNodeBeyondWalk(nodes, P, D, m');
    }
  }

  /** The walk insert_tree makes from the root satisfies Walk. */
  lemma DescentWalk(nodes: seq<Node>, P: seq<int>)
    requires Shaped(nodes)
    ensures Walk(nodes, P, Descent(nodes, P, 0, 0))
  {
    DescentSteps(nodes, P, 0, 0);
  }

  /** An insertion with the effect Effect keeps the items and parents of the existing nodes. */
  lemma EffectExtends(a: Tree, P: seq<int>, D: seq<int>, b: Tree, p: int)
    requires Shaped(a.nodes) && Walk(a.nodes, P, D) && Effect(a, P, 0, D, 1, b, p)
    ensures Extends(a.nodes, b.nodes)
  {
    var grow := |D| - 1 < |P|;
    forall m | 0 <= m < |a.nodes| ensures b.nodes[m].item == a.nodes[m].item && b.nodes[m].parent == a.nodes[m].parent {
      assert OldNode(a, b, m, D, 1, p, grow);
    }
  }

  /** The i-th new node has as its path the items matched by the walk and i + 1 more. */
  lemma {:induction false} NewPath(a: Tree, P: seq<int>, D: seq<int>, b: Tree, p: int, i: int)
    requires Shaped(a.nodes) && ChildrenLinked(a.nodes) && Shaped(b.nodes) && Walk(a.nodes, P, D)
    requires Effect(a, P, 0, D, 1, b, p) && 0 <= i && |a.nodes| + i < |b.nodes|
    decreases i
    ensures |D| + i <= |P| && Path(b.nodes, |a.nodes| + i) == P[..|D| + i]
  {
    var N, k := |a.nodes|, |D| - 1;
    assert NewNode(b, N + i, P, k, N, D[k], 1);
    assert P[..|D| + i] == P[..|D| + i - 1] + [P[k + i]];
    if i == 0 {
      EffectExtends(a, P, D, b, p);
      PathFrame(a.nodes, b.nodes, D[k]);
      WalkPath(a.nodes, P, D, k);
    } else {
      NewPath(a, P, D, b, p, i - 1);
    }
  }

  /** An existing node counts P too exactly when it lies on the walk. */
  lemma OldCount(a: Tree, P: seq<int>, D: seq<int>, b: Tree, p: int, L: seq<seq<int>>, n: int)
    requires Shaped(a.nodes) && ChildrenLinked(a.nodes) && SiblingsDistinct(a.nodes) && Shaped(b.nodes)
    requires Walk(a.nodes, P, D) && Effect(a, P, 0, D, 1, b, p) && Counted(a, L)
    requires 1 <= n < |a.nodes|
    ensures b.nodes[n].count == Through(L + [P], Path(b.nodes, n))
  {
    assert OldNode(a, b, n, D, 1, p, |D| - 1 < |P|);
    ThroughAppend(L, P, Path(b.nodes, n));
    EffectExtends(a, P, D, b, p);
    PathFrame(a.nodes, b.nodes, n);
    OnWalk(a.nodes, P, D, n);
  }

  /** No entry of L passes through a new node: its path goes beyond the walk. */
  lemma NewNotThrough(a: Tree, P: seq<int>, D: seq<int>, L: seq<seq<int>>, q: seq<int>)
    requires Shaped(a.nodes) && ChildrenLinked(a.nodes) && SiblingsDistinct(a.nodes)
    requires Walk(a.nodes, P, D) && Counted(a, L)
    requires |D| <= |q| <= |P| && q == P[..|q|]
    ensures Through(L, q) == 0
  {
    forall j | 0 <= j < |L| ensures !(q <= L[j]) {
      if q <= L[j] {
        var m :| 0 <= m < |a.nodes| && Path(a.nodes, m) == L[j];
        AncestorPath(a.nodes, m, |D|);
        var m' :| 0 <= m' < |a.nodes| && Path(a.nodes, m') == Path(a.nodes, m)[..|D|];
        assert L[j][..|D|] == q[..|D|] == P[..|D|];
        NoNodeBeyondWalk(a.nodes, P, D, m');
      }
    }
    ThroughNone(L, q);
  }

  /** A new node is passed through by P alone. */
  lemma NewCount(a: Tree, P: seq<int>, D: seq<int>, b: Tree, p: int, L: seq<seq<int>>, n: int)
    requires Shaped(a.nodes) && ChildrenLinked(a.nodes) && SiblingsDistinct(a.nodes) && Shaped(b.nodes)
    requires Walk(a.nodes, P, D) && Effect(a, P, 0, D, 1, b, p) && Counted(a, L)
    requires |a.nodes| <= n < |b.nodes|
    ensures b.nodes[n].count == Through(L + [P], Path(b.nodes, n))
  {
    var N, k := |a.nodes|, |D| - 1;
    assert NewNode(b, n, P, k, N, D[k], 1);
    NewPath(a, P, D, b, p, n - N);
    var q := Path(b.nodes, n);
    ThroughAppend(L, P, q);
    NewNotThrough(a, P, D, L, q);
  }

  /** The counts after such an insertion account for P as well. */
  lemma EffectCounts(a: Tree, P: seq<int>, D: seq<int>, b: Tree, p: int, L: seq<seq<int>>)
    requires Shaped(a.nodes) && ChildrenLinked(a.nodes) && SiblingsDistinct(a.nodes) && Shaped(b.nodes)
    requires Walk(a.nodes, P, D) && Effect(a, P, 0, D, 1, b, p) && Counted(a, L)
    ensures forall n {:trigger b.nodes[n].count} :: 1 <= n < |b.nodes| ==> b.nodes[n].count == Through(L + [P], Path(b.nodes, n))
  {
    forall n | 1 <= n < |b.nodes| ensures b.nodes[n].count == Through(L + [P], Path(b.nodes, n)) {
      if n < |a.nodes| {
        OldCount(a, P, D, b, p, L, n);
      } else {
        NewCount(a, P, D, b, p, L, n);
      }
    }
  }

  /** After such an insertion P is the path of a node. */
  lemma InsertedCovered(a: Tree, P: seq<int>, D: seq<int>, b: Tree, p: int)
    requires Shaped(a.nodes) && ChildrenLinked(a.nodes) && Shaped(b.nodes)
    requires Walk(a.nodes, P, D) && Effect(a, P, 0, D, 1, b, p)
    ensures Covers(b.nodes, P)
  {
    var N, k := |a.nodes|, |D| - 1;
    if k == |P| {
      WalkPath(a.nodes, P, D, k);
      EffectExtends(a, P, D, b, p);
      PathFrame(a.nodes, b.nodes, D[k]);
      assert P[..k] == P;
      assert Path(b.nodes, D[k]) == P;
    } else {
      NewPath(a, P, D, b, p, |b.nodes| - 1 - N);
      assert P[..|P|] == P;
      assert Path(b.nodes, |b.nodes| - 1) == P;
    }
  }

  /** Nodes that keep their items and parents keep covering the entries of L. */
  lemma LogFrame(a: Tree, b: Tree, L: seq<seq<int>>)
    requires ParentsBelow(a.nodes) && ParentsBelow(b.nodes) && Extends(a.nodes, b.nodes) && Counted(a, L)
    ensures forall j :: 0 <= j < |L| ==> Covers(b.nodes, L[j])
  {
    forall j | 0 <= j < |L| ensures Covers(b.nodes, L[j]) {
      var m :| 0 <= m < |a.nodes| && Path(a.nodes, m) == L[j];
      PathFrame(a.nodes, b.nodes, m);
      assert 0 <= m < |b.nodes| && Path(b.nodes, m) == L[j];
    }
  }

  /** After such an insertion P is the path of a node, and the entries of L still are. */
  lemma EffectCovered(a: Tree, P: seq<int>, D: seq<int>, b: Tree, p: int, L: seq<seq<int>>)
    requires Shaped(a.nodes) && ChildrenLinked(a.nodes) && Shaped(b.nodes)
    requires Walk(a.nodes, P, D) && Effect(a, P, 0, D, 1, b, p) && Counted(a, L)
    ensures forall j :: 0 <= j < |L + [P]| ==> Covers(b.nodes, (L + [P])[j])
  {
    EffectExtends(a, P, D, b, p);
    LogFrame(a, b, L);
    InsertedCovered(a, P, D, b, p);
    forall j | 0 <= j < |L + [P]| ensures Covers(b.nodes, (L + [P])[j]) {
      if j < |L| {
        assert (L + [P])[j] == L[j];
      } else {
        assert (L + [P])[j] == P;
      }
    }
  }

  lemma ChildSumOne(nodes: seq<Node>, c: int)
    requires 0 <= c < |nodes|
    ensures ChildSum(nodes, [c]) == nodes[c].numPath
  {
    assert [c][..0] == [];
  }

  lemma ChildSumAppend(nodes: seq<Node>, cs: seq<int>, c: int)
    requires 0 <= c < |nodes| && forall k :: 0 <= k < |cs| ==> 0 <= cs[k] < |nodes|
    ensures ChildSum(nodes, cs + [c]) == ChildSum(nodes, cs) + nodes[c].numPath
  {
    assert (cs + [c])[..|cs|] == cs;
  }

  /**
   * What an insertion does to numPath, stated on node sequences: b raises
   * the numPath of the walked nodes by p, and appends a new leaf to the
   * last of them when grow holds, p being 1 exactly when that last node
   * already had children.
   */
  ghost predicate Raised(a: seq<Node>, b: seq<Node>, D: seq<int>, p: int, grow: bool)
    requires 1 <= |D| && forall i :: 0 <= i < |D| ==> 0 <= D[i] < |a|
  {
    && |a| <= |b|
    && (forall m {:trigger b[m].numPath} :: 0 <= m < |a| ==> b[m].numPath == a[m].numPath + (if m in D then p else 0))
    && (grow ==> |a| < |b| && b[|a|].numPath == 1)
    && p == (if grow && a[D[|D| - 1]].children != [] then 1 else 0)
  }

  /** A walked node other than the last keeps numPath equal to its leaf count: it and one child gain p. */
  lemma OnWalkSum(a: seq<Node>, b: seq<Node>, P: seq<int>, D: seq<int>, p: int, grow: bool, i: int)
    requires Shaped(a) && ChildrenLinked(a) && SiblingsDistinct(a) && Walk(a, P, D) && PathSums(a) && Shaped(b)
    requires Raised(a, b, D, p, grow) && 0 <= i < |D| - 1
    requires b[D[i]].children == a[D[i]].children
    ensures b[D[i]].numPath == LeafSum(b, D[i])
  {
    var n := D[i];
    var cs := a[n].children;
    assert a[n].numPath == LeafSum(a, n);
    ChildrenDistinct(a, n);
    WalkIncreasing(a, P, D);
    var c := D[i + 1];
    assert c in cs;
    forall j | 0 <= j < |cs| && cs[j] != c ensures b[cs[j]].numPath == a[cs[j]].numPath {
      if cs[j] in D {
        var i' := WalkParent(a, P, D, n, cs[j]);
      }
    }
    ChildSumBump(a, b, cs, c, p);
  }

  /** Any other existing node keeps numPath equal to its leaf count: no child of it was walked. */
  lemma OffWalkSum(a: seq<Node>, b: seq<Node>, P: seq<int>, D: seq<int>, p: int, grow: bool, n: int)
    requires Shaped(a) && ChildrenLinked(a) && SiblingsDistinct(a) && Walk(a, P, D) && PathSums(a) && Shaped(b)
    requires Raised(a, b, D, p, grow) && 0 <= n < |a| && (n !in D || n == D[|D| - 1])
    requires b[n].children == a[n].children + (if grow && n == D[|D| - 1] then [|a|] else [])
    ensures b[n].numPath == LeafSum(b, n)
  {
    var k := |D| - 1;
    var cs := a[n].children;
    assert a[n].numPath == LeafSum(a, n);
    WalkIncreasing(a, P, D);
    forall j | 0 <= j < |cs| ensures b[cs[j]].numPath == a[cs[j]].numPath {
      if cs[j] in D {
        var i' := WalkParent(a, P, D, n, cs[j]);
      }
    }
    ChildSumFrame(a, b, cs);
    if grow && n == D[k] {
      ChildSumAppend(b, cs, |a|);
      assert b[n].children == cs + [|a|] != [];
      assert b[n].numPath == a[n].numPath + p;
    } else {
      assert b[n].children == cs;
      assert b[n].numPath == a[n].numPath;
    }
  }

  /** A new node is a leaf or has the next new node, a node with numPath 1, as its only child. */
  lemma NewPathSum(a: Tree, P: seq<int>, D: seq<int>, b: Tree, p: int, n: int)
    requires Shaped(a.nodes) && Shaped(b.nodes) && Walk(a.nodes, P, D) && Effect(a, P, 0, D, 1, b, p)
    requires |a.nodes| <= n < |b.nodes|
    ensures b.nodes[n].numPath == LeafSum(b.nodes, n)
  {
    var N, k := |a.nodes|, |D| - 1;
    assert NewNode(b, n, P, k, N, D[k], 1);
    if n + 1 < |b.nodes| {
      assert NewNode(b, n + 1, P, k, N, D[k], 1);
      ChildSumOne(b.nodes, n + 1);
    }
  }

  /** Such an insertion raises numPath as Raised describes. */
  lemma EffectRaised(a: Tree, P: seq<int>, D: seq<int>, b: Tree, p: int)
    requires Shaped(a.nodes) && Shaped(b.nodes) && Walk(a.nodes, P, D) && Effect(a, P, 0, D, 1, b, p)
    ensures Raised(a.nodes, b.nodes, D, p, |D| - 1 < |P|)
  {
    var N, k := |a.nodes|, |D| - 1;
    var grow := k < |P|;
    forall m | 0 <= m < N ensures b.nodes[m].numPath == a.nodes[m].numPath + (if m in D then p else 0) {
      assert OldNode(a, b, m, D, 1, p, grow);
    }
    if grow {
      assert NewNode(b, N, P, k, N, D[k], 1);
    }
  }

  /** After such an insertion an existing node's numPath is still its leaf count. */
  lemma OldPathSum(a: Tree, P: seq<int>, D: seq<int>, b: Tree, p: int, n: int)
    requires Shaped(a.nodes) && ChildrenLinked(a.nodes) && SiblingsDistinct(a.nodes) && Shaped(b.nodes)
    requires Walk(a.nodes, P, D) && Effect(a, P, 0, D, 1, b, p) && PathSums(a.nodes)
    requires Raised(a.nodes, b.nodes, D, p, |D| - 1 < |P|) && 0 <= n < |a.nodes|
    ensures b.nodes[n].numPath == LeafSum(b.nodes, n)
  {
    var k := |D| - 1;
    var grow := k < |P|;
    assert OldNode(a, b, n, D, 1, p, grow);
    if n in D && n != D[k] {
      var i :| 0 <= i < |D| && D[i] == n;
      OnWalkSum(a.nodes, b.nodes, P, D, p, grow, i);
    } else {
      OffWalkSum(a.nodes, b.nodes, P, D, p, grow, n);
    }
  }

  /** After such an insertion every numPath is still the node's leaf count. */
  lemma EffectPathSums(a: Tree, P: seq<int>, D: seq<int>, b: Tree, p: int)
    requires Shaped(a.nodes) && ChildrenLinked(a.nodes) && SiblingsDistinct(a.nodes) && Shaped(b.nodes)
    requires Walk(a.nodes, P, D) && Effect(a, P, 0, D, 1, b, p) && PathSums(a.nodes)
    ensures PathSums(b.nodes)
  {
    EffectRaised(a, P, D, b, p);
    forall n | 0 <= n < |b.nodes|
      ensures b.nodes[n].numPath == LeafSum(b.nodes, n)
    {
      if n < |a.nodes| {
        OldPathSum(a, P, D, b, p, n);
      } else {
        NewPathSum(a, P, D, b, p, n);
      }
    }
  }

  /** After P is inserted along its walk, every non-root node lies on an entry of L or on P. */
  lemma EffectOnLog(a: Tree, P: seq<int>, D: seq<int>, b: Tree, p: int, L: seq<seq<int>>)
    requires Shaped(a.nodes) && ChildrenLinked(a.nodes) && Shaped(b.nodes)
    requires Walk(a.nodes, P, D) && Effect(a, P, 0, D, 1, b, p) && AllOnLog(a, L)
    ensures AllOnLog(b, L + [P])
  {
    EffectExtends(a, P, D, b, p);
    forall n | 1 <= n < |b.nodes| ensures OnLog(L + [P], Path(b.nodes, n)) {
      if n < |a.nodes| {
        PathFrame(a.nodes, b.nodes, n);
        OnLogAppend(L, P, Path(a.nodes, n));
      } else {
        NewPath(a, P, D, b, p, n - |a.nodes|);
        assert (L + [P])[|L|] == P;
      }
    }
  }

  /** Logging one more sequence keeps q on the log. */
  lemma OnLogAppend(L: seq<seq<int>>, P: seq<int>, q: seq<int>)
    requires OnLog(L, q)
    ensures OnLog(L + [P], q)
  {
    var j :| 0 <= j < |L| && q <= L[j];
    assert (L + [P])[j] == L[j];
  }

  /**
   * Inserting the ranked items P from the root with count 1, as buildTree
   * does for each transaction, keeps the tree well formed, makes the
   * counts and paths account for P too, and keeps numPath the leaf count.
   */
  lemma InsertLogged(a: Tree, rankItem: seq<int>, L: seq<seq<int>>, P: seq<int>, R: seq<int>)
    requires WellFormed(a, rankItem) && Logged(a, L) && PathSums(a.nodes) && RankedItems(P, R, 0, rankItem)
    ensures RanksIn(P, R, 0, |a.header|)
    ensures var b := Insert(a, P, R, 1, 0, 0, 0).0;
      WellFormed(b, rankItem) && Logged(b, L + [P]) && PathSums(b.nodes)
  {
    InsertWellFormed(a, rankItem, P, R, 1, 0, 0);
    var res := Insert(a, P, R, 1, 0, 0, 0);
    var D := Descent(a.nodes, P, 0, 0);
    InsertHasEffect(a, P, R, 1, 0, 0);
    DescentWalk(a.nodes, P);
    EffectCounts(a, P, D, res.0, res.1, L);
    EffectCovered(a, P, D, res.0, res.1, L);
    EffectOnLog(a, P, D, res.0, res.1, L);
    EffectPathSums(a, P, D, res.0, res.1);
  }
}
