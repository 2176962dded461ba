/**
 * The FP-tree of fpt.cpp as a value: an arena of nodes indexed by node id,
 * node 0 being the root, and the header table of chain heads indexed by
 * the rank of an item in the frequent-item list.  Node addresses become node
 * ids and NULL becomes -1; a node's linked list of children becomes the
 * sequence of their ids, in list order.
 *
 * AddNode and Insert state what insert_tree does to such a value; the
 * class in fptree.dfy carries it out in place.
 */
module TreeSpec {

  const NULL := -1

  datatype Node = Node(item: int, count: int, numPath: int, parent: int, children: seq<int>, hlink: int)

  datatype Tree = Tree(nodes: seq<Node>, header: seq<int>)

  /** There is a root without parent and every other node's parent has a smaller id. */
  ghost predicate ParentsBelow(nodes: seq<Node>)
  {
    && |nodes| >= 1
    && nodes[0].parent == NULL
    && (forall n :: 1 <= n < |nodes| ==> 0 <= nodes[n].parent < n)
  }

  /** Parents precede their nodes and every child id lies above its parent's. */
  ghost predicate Shaped(nodes: seq<Node>)
  {
    && ParentsBelow(nodes)
    && (forall n, k :: 0 <= n < |nodes| && 0 <= k < |nodes[n].children| ==>
          n < nodes[n].children[k] < |nodes|)
  }

  /** The items on the way from the root down to node n, the root contributing none. */
  ghost function Path(nodes: seq<Node>, n: int): seq<int>
    requires ParentsBelow(nodes) && 0 <= n < |nodes|
    decreases n
  {
    if n == 0 then [] else Path(nodes, nodes[n].parent) + [nodes[n].item]
  }

  /** The first node with id from `from` on holding item x, NULL when there is none. */
  ghost function FirstWith(nodes: seq<Node>, x: int, from: nat): (r: int)
    decreases |nodes| - from
    ensures r == NULL || (from <= r < |nodes| && nodes[r].item == x)
  {
    if from >= |nodes| then NULL
    else if nodes[from].item == x then from
    else FirstWith(nodes, x, from + 1)
  }

  /** The last non-root node below id n holding item x, NULL when there is none. */
  ghost function LastWith(nodes: seq<Node>, x: int, n: nat): (r: int)
    requires n <= |nodes|
    ensures r == NULL || (1 <= r < n && nodes[r].item == x)
  {
    if n <= 1 then NULL
    else if nodes[n - 1].item == x then n - 1
    else LastWith(nodes, x, n - 1)
  }

  /** The node after n holding n's item: where n's horizontal link should lead. */
  ghost function NextWith(nodes: seq<Node>, n: int): int
    requires 0 <= n < |nodes|
  {
    FirstWith(nodes, nodes[n].item, n + 1)
  }

  /** The first of the children cs holding item x, NULL when none does. */
  ghost function ChildWith(nodes: seq<Node>, cs: seq<int>, x: int): (r: int)
    requires forall k :: 0 <= k < |cs| ==> 0 <= cs[k] < |nodes|
    ensures r == NULL ==> forall k :: 0 <= k < |cs| ==> nodes[cs[k]].item != x
    ensures r != NULL ==> r in cs && nodes[r].item == x
  {
    if cs == [] then NULL
    else if nodes[cs[0]].item == x then cs[0]
    else ChildWith(nodes, cs[1..], x)
  }

  /** Each child names its parent, and every non-root node is listed by its parent. */
  ghost predicate ChildrenLinked(nodes: seq<Node>)
    requires Shaped(nodes)
  {
    && (forall n, k :: 0 <= n < |nodes| && 0 <= k < |nodes[n].children| ==>
          nodes[nodes[n].children[k]].parent == n)
    && (forall n {:trigger nodes[n].parent} :: 1 <= n < |nodes| ==> n in nodes[nodes[n].parent].children)
  }

  /** The children of a node hold pairwise distinct items. */
  ghost predicate SiblingsDistinct(nodes: seq<Node>)
    requires Shaped(nodes)
  {
    forall n, k, l :: 0 <= n < |nodes| && 0 <= k < l < |nodes[n].children| ==>
      nodes[nodes[n].children[k]].item != nodes[nodes[n].children[l]].item
  }

  /** No two nodes have the same root-to-node item path. */
  ghost predicate PathsDistinct(nodes: seq<Node>)
    requires ParentsBelow(nodes)
  {
    forall m, n :: 0 <= m < n < |nodes| ==> Path(nodes, m) != Path(nodes, n)
  }

  /** The ranked frequent items are distinct item ids, and every non-root node holds one. */
  ghost predicate ItemsRanked(nodes: seq<Node>, rankItem: seq<int>)
  {
    && (forall r :: 0 <= r < |rankItem| ==> rankItem[r] >= 0)
    && (forall r, s :: 0 <= r < s < |rankItem| ==> rankItem[r] != rankItem[s])
    && (forall n :: 1 <= n < |nodes| ==> nodes[n].item in rankItem)
  }

  /**
   * Header entry r heads the chain of the nodes holding rankItem[r] and
   * each node's horizontal link is the next node holding its item.
   */
  ghost predicate ChainsLinked(a: Tree, rankItem: seq<int>)
  {
    && |a.header| == |rankItem|
    && (forall r {:trigger a.header[r]} :: 0 <= r < |rankItem| ==> a.header[r] == FirstWith(a.nodes, rankItem[r], 1))
    && (forall n {:trigger NextWith(a.nodes, n)} :: 1 <= n < |a.nodes| ==> a.nodes[n].hlink == NextWith(a.nodes, n))
  }

  /**
   * The shape insert_tree keeps: a rooted tree whose child lists and parent
   * links agree, whose siblings hold distinct items (so that no two nodes
   * share a root-to-node item path), whose items are the ranked frequent items,
   * and whose header table and horizontal links chain up, for each item,
   * the nodes holding it in increasing id order.
   */
  ghost predicate WellFormed(a: Tree, rankItem: seq<int>)
  {
    && Shaped(a.nodes)
    && a.nodes[0].item == NULL && a.nodes[0].hlink == NULL
    && ChildrenLinked(a.nodes)
    && SiblingsDistinct(a.nodes)
    && ItemsRanked(a.nodes, rankItem)
    && ChainsLinked(a, rankItem)
  }

  /**
   * Creating a child of t for item x of rank r: the new node gets the next
   * id, count cnt, numPath 1, no children and no horizontal link; it is
   * appended to t's children and to the chain of its item, as the head
   * when the chain is empty and after the chain's last node otherwise.
   */
  ghost function AddNode(a: Tree, t: int, x: int, r: int, cnt: int): (b: Tree)
    requires Shaped(a.nodes) && 0 <= t < |a.nodes| && 0 <= r < |a.header|
    ensures Shaped(b.nodes) && |b.nodes| == |a.nodes| + 1 && |b.header| == |a.header|
  {
    var n := |a.nodes|;
    var nodes := a.nodes[t := a.nodes[t].(children := a.nodes[t].children + [n])]
                 + [Node(x, cnt, 1, t, [], NULL)];
    var tail := LastWith(a.nodes, x, n);
    if tail == NULL then Tree(nodes, a.header[r := n])
    else Tree(nodes[tail := nodes[tail].(hlink := n)], a.header)
  }

  /** The node n with numPath raised by d. */
  function AddPaths(nodes: seq<Node>, n: int, d: int): (r: seq<Node>)
    requires 0 <= n < |nodes|
    ensures |r| == |nodes| && r[n].numPath == nodes[n].numPath + d
    ensures forall m :: 0 <= m < |nodes| && m != n ==> r[m] == nodes[m]
    ensures r[n] == nodes[n].(numPath := r[n].numPath)
  {
    nodes[n := nodes[n].(numPath := nodes[n].numPath + d)]
  }

  /** Items P[ptr..] with ranks R[ptr..] each name a header table entry. */
  ghost predicate RanksIn(P: seq<int>, R: seq<int>, ptr: nat, size: nat)
  {
    && |P| == |R| && ptr <= |P|
    && (forall k :: ptr <= k < |R| ==> 0 <= R[k] < size)
  }

  /**
   * insert_tree(P, R, cnt, ptr, |P|, t, path): merges the items P[ptr..]
   * below node t, returning the new tree and the new value of path.
   */
  ghost function Insert(a: Tree, P: seq<int>, R: seq<int>, cnt: int, ptr: nat, t: int, path: int): (res: (Tree, int))
    requires Shaped(a.nodes) && 0 <= t < |a.nodes| && RanksIn(P, R, ptr, |a.header|)
    decreases |P| - ptr
    ensures Shaped(res.0.nodes) && |res.0.nodes| >= |a.nodes| && |res.0.header| == |a.header|
  {
    if ptr == |P| then (a, path)
    else if a.nodes[t].children == [] then
      var b := AddNode(a, t, P[ptr], R[ptr], cnt);
      var res := Insert(b, P, R, cnt, ptr + 1, |a.nodes|, path);
      (Tree(AddPaths(res.0.nodes, t, res.1), res.0.header), res.1)
    else
      var c := ChildWith(a.nodes, a.nodes[t].children, P[ptr]);
      if c == NULL then
        var b := AddNode(a, t, P[ptr], R[ptr], cnt);
        var res := Insert(b, P, R, cnt, ptr + 1, |a.nodes|, path);
        (Tree(AddPaths(res.0.nodes, t, res.1 + 1), res.0.header), res.1 + 1)
      else
        var b := Tree(a.nodes[c := a.nodes[c].(count := a.nodes[c].count + cnt)], a.header);
        var res := Insert(b, P, R, cnt, ptr + 1, c, path);
        (Tree(AddPaths(res.0.nodes, t, res.1), res.0.header), res.1)
  }

  /**
   * The existing nodes insert_tree walks through from t: t, then the child
   * matching P[ptr], then the child of that matching P[ptr+1], and so on,
   * until the items run out or no child matches.
   */
  ghost function Descent(nodes: seq<Node>, P: seq<int>, ptr: nat, t: int): (d: seq<int>)
    requires Shaped(nodes) && 0 <= t < |nodes| && ptr <= |P|
    decreases |P| - ptr
    ensures 1 <= |d| <= |P| - ptr + 1 && d[0] == t
    ensures forall i :: 0 <= i < |d| ==> t <= d[i] < |nodes|
    ensures forall i :: 0 < i < |d| ==> t < d[i]
  {
    if ptr == |P| then [t]
    else
      var c := ChildWith(nodes, nodes[t].children, P[ptr]);
      if c == NULL then [t] else [t] + Descent(nodes, P, ptr + 1, c)
  }
}
