/**
 * Facts about the FP-tree value of TreeSpec: what survives growing the
 * arena, and that creating a child keeps the tree well formed.
 */
module TreeFacts {
  import opened TreeSpec

  /** b keeps the first |a| nodes of a with their items and parents. */
  ghost predicate Extends(a: seq<Node>, b: seq<Node>)
  {
    && |a| <= |b|
    && (forall m :: 0 <= m < |a| ==> b[m].item == a[m].item && b[m].parent == a[m].parent)
  }

  /** A node's item path depends only on the items and parents of the nodes up to it. */
  lemma {:induction false} PathFrame(a: seq<Node>, b: seq<Node>, n: int)
    requires ParentsBelow(a) && ParentsBelow(b) && Extends(a, b) && 0 <= n < |a|
    decreases n
    ensures Path(b, n) == Path(a, n)
  {
    if n > 0 {
      PathFrame(a, b, a[n].parent);
    }
  }

  lemma PathsFrame(a: seq<Node>, b: seq<Node>)
    requires ParentsBelow(a) && ParentsBelow(b) && Extends(a, b)
    ensures forall n :: 0 <= n < |a| ==> Path(b, n) == Path(a, n)
  {
    forall n | 0 <= n < |a| ensures Path(b, n) == Path(a, n) {
      PathFrame(a, b, n);
    }
  }

  /** The path to node n has one item per non-root node on the way. */
  lemma {:induction false} PathLength(nodes: seq<Node>, n: int)
    requires ParentsBelow(nodes) && 0 <= n < |nodes|
    decreases n
    ensures n == 0 <==> |Path(nodes, n)| == 0
    ensures n > 0 ==> Path(nodes, n)[..|Path(nodes, n)| - 1] == Path(nodes, nodes[n].parent)
  {
  }

  /** Every prefix of a node's path is the path of some node (one of its ancestors). */
  lemma {:induction false} AncestorPath(nodes: seq<Node>, n: int, k: nat)
    requires ParentsBelow(nodes) && 0 <= n < |nodes| && k <= |Path(nodes, n)|
    decreases n
    ensures exists m :: 0 <= m < |nodes| && Path(nodes, m) == Path(nodes, n)[..k]
  {
    if k == |Path(nodes, n)| {
      assert Path(nodes, n)[..k] == Path(nodes, n);
    } else {
      var p := nodes[n].parent;
      AncestorPath(nodes, p, k);
      assert Path(nodes, n)[..k] == Path(nodes, p)[..k];
    }
  }

  /** No node between `from` and the first node holding x holds x. */
  lemma {:induction false} FirstWithIsFirst(nodes: seq<Node>, x: int, from: nat)
    decreases |nodes| - from
    ensures var r := FirstWith(nodes, x, from);
            forall m :: from <= m < |nodes| && (r == NULL || m < r) ==> nodes[m].item != x
  {
    if from < |nodes| && nodes[from].item != x {
      FirstWithIsFirst(nodes, x, from + 1);
    }
  }

  /** No non-root node below n after the last node holding x holds x. */
  lemma {:induction false} LastWithIsLast(nodes: seq<Node>, x: int, n: nat)
    requires n <= |nodes|
    ensures var r := LastWith(nodes, x, n);
            forall m :: 1 <= m < n && (r == NULL || r < m) ==> nodes[m].item != x
  {
    if n > 1 && nodes[n - 1].item != x {
      LastWithIsLast(nodes, x, n - 1);
    }
  }

  /**
   * Growing the arena by at most one node, without touching items, moves
   * the first node holding x only when there was none before.
   */
  lemma {:induction false} FirstWithGrow(a: seq<Node>, b: seq<Node>, x: int, from: nat)
    requires |a| <= |b| <= |a| + 1
    requires forall m :: 0 <= m < |a| ==> b[m].item == a[m].item
    decreases |b| - from
    ensures FirstWith(b, x, from) ==
              if FirstWith(a, x, from) != NULL then FirstWith(a, x, from)
              else if from <= |a| < |b| && b[|a|].item == x then |a|
              else NULL
  {
    if from < |b| {
      FirstWithGrow(a, b, x, from + 1);
    }
  }

  /** What AddNode changes: t's child list, the new node, and the chain of x. */
  lemma AddNodeFacts(a: Tree, t: int, x: int, r: int, cnt: int)
    requires Shaped(a.nodes) && 0 <= t < |a.nodes| && 0 <= r < |a.header|
    ensures var b, n, tail := AddNode(a, t, x, r, cnt), |a.nodes|, LastWith(a.nodes, x, |a.nodes|);
      && (forall m :: 0 <= m < n ==> b.nodes[m].item == a.nodes[m].item && b.nodes[m].parent == a.nodes[m].parent)
      && (forall m :: 0 <= m < n ==> b.nodes[m].count == a.nodes[m].count && b.nodes[m].numPath == a.nodes[m].numPath)
      && (forall m :: 0 <= m < n && m != t ==> b.nodes[m].children == a.nodes[m].children)
      && b.nodes[t].children == a.nodes[t].children + [n]
      && (forall m :: 0 <= m < n && m != tail ==> b.nodes[m].hlink == a.nodes[m].hlink)
      && b.nodes[n] == Node(x, cnt, 1, t, [], NULL)
      && (tail == NULL ==> b.header == a.header[r := n])
      && (tail != NULL ==> b.header == a.header && b.nodes[tail].hlink == n)
  {
  }

  /** Where the first node holding y from `from` on lies once a node for x is added as node |a|. */
  lemma FirstWithAdded(a: seq<Node>, b: seq<Node>, x: int)
    requires |b| == |a| + 1 && b[|a|].item == x
    requires forall m :: 0 <= m < |a| ==> b[m].item == a[m].item
    ensures forall y, from: nat {:trigger FirstWith(b, y, from)} :: FirstWith(b, y, from) ==
              if FirstWith(a, y, from) != NULL then FirstWith(a, y, from)
              else if from <= |a| && y == x then |a|
              else NULL
  {
    forall y, from: nat
      ensures FirstWith(b, y, from) ==
                if FirstWith(a, y, from) != NULL then FirstWith(a, y, from)
                else if from <= |a| && y == x then |a|
                else NULL
    {
      FirstWithGrow(a, b, y, from);
    }
  }

  /** A new node for x of rank r becomes the head of x's chain when the chain was empty. */
  lemma HeaderAdded(a: Tree, b: Tree, rankItem: seq<int>, x: int, r: int)
    requires ItemsRanked(a.nodes, rankItem) && ChainsLinked(a, rankItem)
    requires 0 <= r < |rankItem| && rankItem[r] == x && |b.nodes| == |a.nodes| + 1 && |a.nodes| >= 1
    requires forall m :: 0 <= m < |a.nodes| ==> b.nodes[m].item == a.nodes[m].item
    requires b.nodes[|a.nodes|].item == x
    requires var tail := LastWith(a.nodes, x, |a.nodes|);
      && (tail == NULL ==> b.header == a.header[r := |a.nodes|])
      && (tail != NULL ==> b.header == a.header)
    ensures |b.header| == |rankItem|
    ensures forall q :: 0 <= q < |rankItem| ==> b.header[q] == FirstWith(b.nodes, rankItem[q], 1)
  {
    FirstWithAdded(a.nodes, b.nodes, x);
    forall q | 0 <= q < |rankItem|
      ensures b.header[q] == FirstWith(b.nodes, rankItem[q], 1)
    {
      var tail := LastWith(a.nodes, x, |a.nodes|);
      var y := rankItem[q];
      if y == x {
        assert q == r;
        LastWithIsLast(a.nodes, x, |a.nodes|);
        FirstWithIsFirst(a.nodes, x, 1);
        if tail == NULL {
          assert FirstWith(a.nodes, x, 1) == NULL;
        } else {
          assert FirstWith(a.nodes, x, 1) != NULL;
        }
      } else {
        assert b.header[q] == a.header[q];
      }
    }
  }

  /** A new node for x appended after the last node of x's chain keeps every horizontal link on the next node. */
  lemma LinksAdded(a: seq<Node>, b: seq<Node>, x: int)
    requires |b| == |a| + 1
    requires forall n {:trigger NextWith(a, n)} :: 1 <= n < |a| ==> a[n].hlink == NextWith(a, n)
    requires forall m :: 0 <= m < |a| ==> b[m].item == a[m].item
    requires b[|a|].item == x && b[|a|].hlink == NULL
    requires var tail := LastWith(a, x, |a|);
      && (forall m :: 0 <= m < |a| && m != tail ==> b[m].hlink == a[m].hlink)
      && (tail != NULL ==> b[tail].hlink == |a|)
    ensures forall n {:trigger NextWith(b, n)} :: 1 <= n < |b| ==> b[n].hlink == NextWith(b, n)
  {
    var tail := LastWith(a, x, |a|);
    LastWithIsLast(a, x, |a|);
    forall m | 1 <= m < |b|
      ensures b[m].hlink == NextWith(b, m)
    {
      var y := b[m].item;
      if m < |a| {
        assert a[m].hlink == NextWith(a, m);
      }
      FirstWithGrow(a, b, y, m + 1);
      if m < |a| && m != tail && y == x {
        assert tail != NULL && m < tail;
        FirstWithIsFirst(a, x, m + 1);
      }
    }
  }

  /** Trees that differ only in counts and numPath have the same chains. */
  lemma ChainsFrame(a: Tree, b: Tree, rankItem: seq<int>)
    requires ChainsLinked(a, rankItem) && b.header == a.header && |b.nodes| == |a.nodes|
    requires forall m :: 0 <= m < |a.nodes| ==> b.nodes[m].item == a.nodes[m].item && b.nodes[m].hlink == a.nodes[m].hlink
    ensures ChainsLinked(b, rankItem)
  {
    forall x, from: nat ensures FirstWith(b.nodes, x, from) == FirstWith(a.nodes, x, from) {
      FirstWithGrow(a.nodes, b.nodes, x, from);
    }
    forall n | 1 <= n < |b.nodes| ensures b.nodes[n].hlink == NextWith(b.nodes, n) {
      assert a.nodes[n].hlink == NextWith(a.nodes, n);
    }
  }

  /** The part of a well-formed tree that the header table and the horizontal links maintain. */
  ghost predicate Chained(a: Tree, rankItem: seq<int>)
  {
    && |a.nodes| >= 1 && a.nodes[0].item == NULL && a.nodes[0].hlink == NULL
    && ItemsRanked(a.nodes, rankItem)
    && ChainsLinked(a, rankItem)
  }

  /** Creating a child for the ranked item x of rank r keeps the items ranked and the chains linked. */
  lemma AddNodeChains(a: Tree, rankItem: seq<int>, t: int, x: int, r: int, cnt: int)
    requires Shaped(a.nodes) && Chained(a, rankItem) && 0 <= t < |a.nodes|
    requires 0 <= r < |rankItem| && rankItem[r] == x
    ensures Chained(AddNode(a, t, x, r, cnt), rankItem)
  {
    var b := AddNode(a, t, x, r, cnt);
    AddNodeFacts(a, t, x, r, cnt);
    HeaderAdded(a, b, rankItem, x, r);
    LinksAdded(a.nodes, b.nodes, x);
  }

  /** Equal paths of two non-root nodes: equal items and equal parent paths. */
  lemma PathsSplit(nodes: seq<Node>, m: int, n: int)
    requires ParentsBelow(nodes) && 0 < m < |nodes| && 0 < n < |nodes|
    requires Path(nodes, m) == Path(nodes, n)
    ensures nodes[m].item == nodes[n].item
    ensures Path(nodes, nodes[m].parent) == Path(nodes, nodes[n].parent)
  {
    var pm, pn := Path(nodes, nodes[m].parent), Path(nodes, nodes[n].parent);
    assert Path(nodes, m) == pm + [nodes[m].item];
    assert Path(nodes, n) == pn + [nodes[n].item];
    assert pm == Path(nodes, m)[..|pm|];
  }

  /** Two children of one node with the same item are the same node. */
  lemma SameSibling(nodes: seq<Node>, m: int, n: int)
    requires Shaped(nodes) && SiblingsDistinct(nodes) && 0 < m < |nodes| && 0 < n < |nodes|
    requires nodes[m].parent == nodes[n].parent
    requires m in nodes[nodes[m].parent].children && n in nodes[nodes[n].parent].children
    requires nodes[m].item == nodes[n].item
    ensures m == n
  {
    var cs := nodes[nodes[m].parent].children;
    var k :| 0 <= k < |cs| && cs[k] == m;
    var l :| 0 <= l < |cs| && cs[l] == n;
    assert forall i, j :: 0 <= i < j < |cs| ==> nodes[cs[i]].item != nodes[cs[j]].item;
    assert k == l;
  }

  /** Distinct sibling items make every root-to-node item path name one node. */
  lemma {:induction false} PathsDistinctFromSiblings(nodes: seq<Node>, m: int, n: int)
    requires Shaped(nodes) && ChildrenLinked(nodes) && SiblingsDistinct(nodes)
    requires 0 <= m < n < |nodes|
    decreases n
    ensures Path(nodes, m) != Path(nodes, n)
  {
    PathLength(nodes, m);
    PathLength(nodes, n);
    if m > 0 && Path(nodes, m) == Path(nodes, n) {
      var p, q := nodes[m].parent, nodes[n].parent;
      PathsSplit(nodes, m, n);
      if p < q {
        PathsDistinctFromSiblings(nodes, p, q);
      } else if q < p {
        PathsDistinctFromSiblings(nodes, q, p);
      } else {
        SameSibling(nodes, m, n);
      }
    }
  }

  lemma PathsDistinctAll(nodes: seq<Node>)
    requires Shaped(nodes) && ChildrenLinked(nodes) && SiblingsDistinct(nodes)
    ensures PathsDistinct(nodes)
  {
    forall m, n | 0 <= m < n < |nodes| ensures Path(nodes, m) != Path(nodes, n) {
      PathsDistinctFromSiblings(nodes, m, n);
    }
  }
}
