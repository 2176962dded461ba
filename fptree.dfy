/**
 * The FP-tree of fpt.cpp held in place: the nodes reachable from `root`
 * (kept as an arena indexed by node id, node 0 being the root), the header
 * table `headerTableLink`, and the counters and output of test_tree.
 * insert_tree updates it step by step exactly as the value-level Insert of
 * TreeSpec says, and test_tree consumes child lists and emits, per leaf,
 * the itemsets the as-written combine_string builds from its branch.
 */
module FpTree {
  import opened TreeSpec
  import opened TreeFacts
  import opened InsertEffect
  import opened InsertChains
  import opened TreeLog
  import opened Branches
  import opened Combinations

  /** The first node holding x exists exactly when the last one does. */
  lemma FirstLastNull(nodes: seq<Node>, x: int)
    ensures FirstWith(nodes, x, 1) == NULL <==> LastWith(nodes, x, |nodes|) == NULL
  {
    FirstWithIsFirst(nodes, x, 1);
    LastWithIsLast(nodes, x, |nodes|);
  }

  /** A node holding x with no later node holding x is the last node holding x. */
  lemma {:induction false} LastFrom(nodes: seq<Node>, x: int, p: int, n: nat)
    requires 1 <= p < n <= |nodes| && nodes[p].item == x
    requires forall m :: p < m < n ==> nodes[m].item != x
    decreases n
    ensures LastWith(nodes, x, n) == p
  {
    if n - 1 > p {
      LastFrom(nodes, x, p, n - 1);
    }
  }

  /** Raising a count keeps the chains. */
  lemma ChainedCount(a: Tree, rankItem: seq<int>, c: int, cnt: int)
    requires Chained(a, rankItem) && 0 <= c < |a.nodes|
    ensures Chained(Tree(a.nodes[c := a.nodes[c].(count := a.nodes[c].count + cnt)], a.header), rankItem)
  {
    ChainsFrame(a, Tree(a.nodes[c := a.nodes[c].(count := a.nodes[c].count + cnt)], a.header), rankItem);
  }

  /** insert_tree's first two cases: the tree and path after the child's subtree is filled in and t's numPath raised. */
  lemma NewChildInserted(a: Tree, rankItem: seq<int>, res: Tree, p1: int,
                         P: seq<int>, R: seq<int>, cnt: int, ptr: nat, t: int, path: int)
    requires Shaped(a.nodes) && 0 <= t < |a.nodes| && RanksIn(P, R, ptr, |a.header|) && ptr < |P|
    requires a.nodes[t].children == [] || ChildWith(a.nodes, a.nodes[t].children, P[ptr]) == NULL
    requires (res, p1) == Insert(AddNode(a, t, P[ptr], R[ptr], cnt), P, R, cnt, ptr + 1, |a.nodes|, path)
    requires Chained(res, rankItem)
    ensures var d := if a.nodes[t].children == [] then p1 else p1 + 1;
      && Insert(a, P, R, cnt, ptr, t, path) == (Tree(AddPaths(res.nodes, t, d), res.header), d)
      && Chained(Tree(AddPaths(res.nodes, t, d), res.header), rankItem)
  {
    NewNodeStep(a, P, R, cnt, ptr, t, path);
    ChainedAddPaths(res, rankItem, t, if a.nodes[t].children == [] then p1 else p1 + 1);
  }

  class FPTree {
    var nodes: seq<Node>
    var header: array<int>
    ghost var rankItem: seq<int>
    var totalLeafNode: int
    var branchI: int
    var branchJ: int
    /** The itemset lists test_tree prints, one per leaf in walk order. */
    var emitted: seq<seq<seq<int>>>

    function State(): Tree
      reads this, header
    {
      Tree(nodes, header[..])
    }

    /** The invariant insert_tree keeps between calls. */
    ghost predicate Valid()
      reads this, header
    {
      && header.Length == |rankItem|
      && Shaped(nodes)
      && Chained(State(), rankItem)
    }

    /**
     * The tree buildTree starts from: a root with numPath 1 and no
     * children, and one empty header entry per frequent item.
     */
    constructor (largeItem1: seq<int>)
      requires forall r :: 0 <= r < |largeItem1| ==> largeItem1[r] >= 0
      requires forall r, s :: 0 <= r < s < |largeItem1| ==> largeItem1[r] != largeItem1[s]
      ensures rankItem == largeItem1 && fresh(header)
      ensures nodes == [Node(NULL, 0, 1, NULL, [], NULL)]
      ensures header[..] == seq(|largeItem1|, _ => NULL)
      ensures totalLeafNode == 0 && branchI == 0 && branchJ == 0 && emitted == []
      ensures Valid() && WellFormed(State(), rankItem) && Logged(State(), []) && PathSums(nodes)
    {
      var h := new int[|largeItem1|];
      for i := 0 to h.Length
        invariant forall k :: 0 <= k < i ==> h[k] == NULL
      {
        h[i] := NULL;
      }
      header := h;
      nodes := [Node(NULL, 0, 1, NULL, [], NULL)];
      rankItem := largeItem1;
      totalLeafNode, branchI, branchJ, emitted := 0, 0, 0, [];
      new;
      assert header[..] == seq(|largeItem1|, _ => NULL);
      assert nodes[0].numPath == LeafSum(nodes, 0);
      forall r | 0 <= r < |rankItem| ensures header[..][r] == FirstWith(nodes, rankItem[r], 1) {
      }
    }

    /** The child of t holding x, found by walking t's child list. */
    method FindChild(t: int, x: int) returns (c: int)
      requires Shaped(nodes) && 0 <= t < |nodes|
      ensures c == ChildWith(nodes, nodes[t].children, x)
    {
      var cs := nodes[t].children;
      var i := 0;
      while i < |cs| && nodes[cs[i]].item != x
        invariant 0 <= i <= |cs|
        invariant ChildWith(nodes, cs[i..], x) == ChildWith(nodes, cs, x)
      {
        assert cs[i..][1..] == cs[i + 1..];
        i := i + 1;
      }
      c := if i < |cs| then cs[i] else NULL;
    }

    /** The last node of the non-empty chain of rank r, found by following horizontal links. */
    method ChainTail(r: int) returns (tail: int)
      requires Valid() && 0 <= r < header.Length && header[r] != NULL
      ensures tail == LastWith(nodes, rankItem[r], |nodes|)
    {
      ghost var x := rankItem[r];
      assert State().header[r] == FirstWith(nodes, x, 1);
      tail := header[r];
      assert nodes[tail].hlink == NextWith(State().nodes, tail);
      var h := nodes[tail].hlink;
      while h != NULL
        invariant 1 <= tail < |nodes| && nodes[tail].item == x
        invariant h == NextWith(nodes, tail)
        decreases |nodes| - tail
      {
        tail := h;
        assert nodes[tail].hlink == NextWith(State().nodes, tail);
        h := nodes[tail].hlink;
      }
      FirstWithIsFirst(nodes, x, tail + 1);
      LastFrom(nodes, x, tail, |nodes|);
    }

    /**
     * Creates a child of t holding x, of rank r, with count cnt, and links
     * it into the chain of x: at the head when the chain is empty,
     * after its last node otherwise.
     */
    method AddChild(t: int, x: int, r: int, cnt: int)
      requires Valid() && 0 <= t < |nodes| && 0 <= r < |rankItem| && rankItem[r] == x
      modifies this`nodes, header
      ensures State() == AddNode(old(State()), t, x, r, cnt)
      ensures Valid()
    {
      ghost var a := State();
      FirstLastNull(nodes, x);
      assert a.header[r] == FirstWith(nodes, x, 1);
      var n := |nodes|;
      var child := Node(x, cnt, 1, t, [], NULL);
      if header[r] == NULL {
        nodes := nodes[t := nodes[t].(children := nodes[t].children + [n])] + [child];
        header[r] := n;
      } else {
        var tail := ChainTail(r);
        nodes := nodes[t := nodes[t].(children := nodes[t].children + [n])] + [child];
        nodes := nodes[tail := nodes[tail].(hlink := n)];
      }
      AddNodeChains(a, rankItem, t, x, r, cnt);
    }

    /**
     * insert_tree: merges the items P[ptr..] (of ranks R[ptr..]) below node
     * t with count cnt, returning the updated path counter.
     */
    method InsertTree(P: seq<int>, R: seq<int>, cnt: int, ptr: nat, t: int, path: int) returns (path': int)
      requires Valid() && 0 <= t < |nodes| && RankedItems(P, R, ptr, rankItem)
      modifies this`nodes, header
      decreases |P| - ptr, 1
      ensures Valid()
      ensures (State(), path') == Insert(old(State()), P, R, cnt, ptr, t, path)
    {
      if ptr == |P| {
        return path;
      }
      if nodes[t].children == [] {
        path' := NewChild(P, R, cnt, ptr, t, path);
      } else {
        var c := FindChild(t, P[ptr]);
        if c == NULL {
          path' := NewChild(P, R, cnt, ptr, t, path);
        } else {
          path' := MatchChild(P, R, cnt, ptr, t, c, path);
        }
      }
    }

    /**
     * insert_tree's first two cases: no child of t holds P[ptr], so a new
     * child is created for it and the rest is inserted below that child; a
     * child added to a node that had children counts as one more path.
     */
    method NewChild(P: seq<int>, R: seq<int>, cnt: int, ptr: nat, t: int, path: int) returns (path': int)
      requires Valid() && 0 <= t < |nodes| && RankedItems(P, R, ptr, rankItem) && ptr < |P|
      requires nodes[t].children == [] || ChildWith(nodes, nodes[t].children, P[ptr]) == NULL
      modifies this`nodes, header
      decreases |P| - ptr, 0
      ensures Valid()
      ensures (State(), path') == Insert(old(State()), P, R, cnt, ptr, t, path)
    {
      ghost var a := State();
      var leaf := nodes[t].children == [];
      var child := |nodes|;
      AddChild(t, P[ptr], R[ptr], cnt);
      var p1 := InsertTree(P, R, cnt, ptr + 1, child, path);
      ghost var res := State();
      NewChildInserted(a, rankItem, res, p1, P, R, cnt, ptr, t, path);
      path' := if leaf then p1 else p1 + 1;
      nodes := AddPaths(nodes, t, path');
      assert State() == Tree(AddPaths(res.nodes, t, path'), res.header);
    }

    /**
     * insert_tree's third case: child c of t holds P[ptr]; its count grows
     * by cnt and the rest is inserted below it.
     */
    method MatchChild(P: seq<int>, R: seq<int>, cnt: int, ptr: nat, t: int, c: int, path: int) returns (path': int)
      requires Valid() && 0 <= t < |nodes| && RankedItems(P, R, ptr, rankItem) && ptr < |P|
      requires nodes[t].children != [] && c == ChildWith(nodes, nodes[t].children, P[ptr]) != NULL
      modifies this`nodes, header
      decreases |P| - ptr, 0
      ensures Valid()
      ensures (State(), path') == Insert(old(State()), P, R, cnt, ptr, t, path)
    {
      ghost var a := State();
      ghost var b := CountShaped(a, t, c, P[ptr], cnt);
      nodes := nodes[c := nodes[c].(count := nodes[c].count + cnt)];
      ChainedCount(a, rankItem, c, cnt);
      assert State() == b;
      path' := InsertTree(P, R, cnt, ptr + 1, c, path);
      ghost var res := State();
      nodes := AddPaths(nodes, t, path');
      ChainedAddPaths(res, rankItem, t, path');
      MatchStep(a, P, R, cnt, ptr, t, c, b, path);
    }

    /** The items on the branch from the root down to leaf n, filled in backwards from n. */
    method BranchItems(n: int) returns (pp: array<int>)
      requires ParentsBelow(nodes) && 1 <= n < |nodes|
      ensures fresh(pp) && pp[..] == Path(nodes, n)
    {
      var len := 0;
      var tmp := n;
      while tmp != 0
        invariant 0 <= tmp < |nodes| && len + |Path(nodes, tmp)| == |Path(nodes, n)|
        decreases tmp
      {
        len := len + 1;
        tmp := nodes[tmp].parent;
      }
      pp := new int[len];
      var p := n;
      while p != 0
        invariant 0 <= p < |nodes| && 0 <= len <= pp.Length == |Path(nodes, n)|
        invariant len == |Path(nodes, p)| && Path(nodes, p) == Path(nodes, n)[..len]
        invariant pp[len..] == Path(nodes, n)[len..]
        decreases p
      {
        PathLength(nodes, p);
        len := len - 1;
        pp[len] := nodes[p].item;
        p := nodes[p].parent;
      }
    }

    /**
     * test_tree(n): walks the subtree of n depth first, consuming each
     * child list as it goes; at each leaf it counts the leaf and emits the
     * as-written combine_string list of the leaf's branch.
     */
    method TestTree(n: int)
      requires Walkable(nodes) && 0 <= n < |nodes|
      requires n != 0 || nodes[0].children != []
      modifies this`nodes, this`totalLeafNode, this`branchI, this`branchJ, this`emitted
      decreases |nodes| - n, 1
      ensures Walkable(nodes) && Emptied(old(nodes), nodes, n)
      ensures totalLeafNode == old(totalLeafNode) + |Leaves(old(nodes), n)|
      ensures branchI == old(branchI) + |Leaves(old(nodes), n)| && branchJ == 0
      ensures emitted == old(emitted) + Combos(old(nodes), Leaves(old(nodes), n))
    {
      if nodes[n].children == [] {
        VisitLeaf(n);
      } else {
        VisitChildren(n);
      }
    }

    /** test_tree at an inner node n: walks each child in turn, taking it off n's child list afterwards. */
    method VisitChildren(n: int)
      requires Walkable(nodes) && 0 <= n < |nodes| && nodes[n].children != []
      modifies this`nodes, this`totalLeafNode, this`branchI, this`branchJ, this`emitted
      decreases |nodes| - n, 0
      ensures Walkable(nodes) && Emptied(old(nodes), nodes, n)
      ensures totalLeafNode == old(totalLeafNode) + |Leaves(old(nodes), n)|
      ensures branchI == old(branchI) + |Leaves(old(nodes), n)| && branchJ == 0
      ensures emitted == old(emitted) + Combos(old(nodes), Leaves(old(nodes), n))
    {
      ghost var a := nodes;
      ghost var cs := nodes[n].children;
      ghost var i := 0;
      while nodes[n].children != []
        invariant 0 <= i <= |cs| && Consumed(a, nodes, n, cs, i) && Walkable(nodes)
        invariant i > 0 ==> branchJ == 0
        invariant Tally(a, n, cs, i, old(totalLeafNode), totalLeafNode, old(branchI), branchI, old(emitted), emitted)
        decreases |cs| - i
      {
        VisitNextChild(n, a, cs, i, old(totalLeafNode), old(branchI), old(emitted));
        i := i + 1;
      }
      ConsumedAll(a, nodes, n, cs, i);
      assert cs[..i] == cs;
    }

    /**
     * One round of test_tree's loop at n, the first i children cs of the
     * original tree a done: walks the next child, then takes it off n's
     * child list.
     */
    method VisitNextChild(n: int, ghost a: seq<Node>, ghost cs: seq<int>, ghost i: int,
                          ghost t0: int, ghost b0: int, ghost e0: seq<seq<seq<int>>>)
      requires Walkable(a) && 0 <= n < |a| && cs == a[n].children && 0 <= i < |cs|
      requires Consumed(a, nodes, n, cs, i) && Walkable(nodes)
      requires Tally(a, n, cs, i, t0, totalLeafNode, b0, branchI, e0, emitted)
      modifies this`nodes, this`totalLeafNode, this`branchI, this`branchJ, this`emitted
      decreases |nodes| - n, 0, 0
      ensures Consumed(a, nodes, n, cs, i + 1) && Walkable(nodes) && branchJ == 0
      ensures Tally(a, n, cs, i + 1, t0, totalLeafNode, b0, branchI, e0, emitted)
    {
      ghost var cur := nodes;
      ghost var t, b, e := totalLeafNode, branchI, emitted;
      assert nodes[n].children[0] == cs[i];
      TestTree(nodes[n].children[0]);
      TallyStep(a, cur, n, cs, i, t0, t, totalLeafNode, b0, b, branchI, e0, e, emitted);
      ghost var mid := nodes;
      assert mid[n] == cur[n];
      nodes := nodes[n := nodes[n].(children := nodes[n].children[1..])];
      ConsumeStep(a, cur, mid, n, cs, i);
    }

    /** test_tree at a leaf n: counts it and emits the itemsets combine_string builds from its branch. */
    method VisitLeaf(n: int)
      requires Walkable(nodes) && 1 <= n < |nodes| && nodes[n].children == []
      modifies this`totalLeafNode, this`branchI, this`branchJ, this`emitted
      ensures Emptied(nodes, nodes, n) && Leaves(nodes, n) == [n]
      ensures totalLeafNode == old(totalLeafNode) + 1
      ensures branchI == old(branchI) + 1 && branchJ == 0
      ensures emitted == old(emitted) + [BranchCombos(nodes, n)]
    {
      totalLeafNode := totalLeafNode + 1;
      branchI := branchI + 1;
      branchJ := 0;
      var pp := BranchItems(n);
      PathLength(nodes, n);
      var v := CombineStringAsWritten(pp[..], pp.Length - 1, []);
      emitted := emitted + [v];
      assert Sub(nodes, n) == {n};
    }
  }

  /** The shape test_tree relies on: a rooted tree whose child lists and parent links agree, with distinct sibling items. */
  ghost predicate Walkable(nodes: seq<Node>)
  {
    Shaped(nodes) && ChildParents(nodes) && SiblingsDistinct(nodes)
  }

  /** b is a with the child lists of the subtree of n emptied and nothing else changed. */
  ghost predicate Emptied(a: seq<Node>, b: seq<Node>, n: int)
    requires Shaped(a) && 0 <= n < |a|
  {
    && |b| == |a|
    && forall m :: 0 <= m < |a| ==> b[m] == if m in Sub(a, n) then a[m].(children := []) else a[m]
  }

  /**
   * Associativity of concatenation, for emitted lists only.  This is proof
   * scaffolding for TallyStep, whose large context makes the step costly
   * for the solver; it states nothing about test_tree.
   */
  lemma EmittedInOrder(e0: seq<seq<seq<int>>>, done: seq<seq<seq<int>>>, next: seq<seq<seq<int>>>)
    ensures (e0 + done) + next == e0 + (done + next)
  {
  }

  /** A node reached from some child in cs is reached from one particular child. */
  lemma {:induction false} SubAllMember(nodes: seq<Node>, cs: seq<int>, above: int, m: int) returns (k: int)
    requires Shaped(nodes) && 0 <= above && forall j :: 0 <= j < |cs| ==> above < cs[j] < |nodes|
    requires m in SubAll(nodes, cs, above)
    decreases |cs|
    ensures 0 <= k < |cs| && m in Sub(nodes, cs[k])
  {
    if m in Sub(nodes, cs[|cs| - 1]) {
      k := |cs| - 1;
    } else {
      k := SubAllMember(nodes, cs[..|cs| - 1], above, m);
    }
  }

  /**
   * What test_tree's loop over the children cs of n has done after i of
   * them: the first i children's subtrees are consumed, and n keeps the rest.
   */
  ghost predicate Consumed(a: seq<Node>, cur: seq<Node>, n: int, cs: seq<int>, i: int)
    requires Shaped(a) && 0 <= n < |a| && cs == a[n].children && 0 <= i <= |cs|
  {
    && |cur| == |a|
    && cur[n] == a[n].(children := cs[i..])
    && forall m :: 0 <= m < |a| && m != n ==>
         cur[m] == if m in SubAll(a, cs[..i], n) then a[m].(children := []) else a[m]
  }

  /** The subtree of the next child is still untouched when the loop reaches it. */
  lemma ConsumeFrame(a: seq<Node>, cur: seq<Node>, n: int, cs: seq<int>, i: int)
    requires Walkable(a) && 0 <= n < |a| && cs == a[n].children && 0 <= i < |cs|
    requires Shaped(cur) && Consumed(a, cur, n, cs, i)
    ensures forall m :: m in Sub(a, cs[i]) ==> cur[m] == a[m]
    ensures Sub(cur, cs[i]) == Sub(a, cs[i]) && Leaves(cur, cs[i]) == Leaves(a, cs[i])
  {
    forall m | m in Sub(a, cs[i]) ensures cur[m] == a[m] {
      if m in SubAll(a, cs[..i], n) {
        var k := SubAllMember(a, cs[..i], n, m);
        assert cs[..i][k] == cs[k];
        assert a[cs[k]].item != a[cs[i]].item;
        SiblingSubsDisjoint(a, n, cs[k], cs[i]);
      }
    }
    SubFrame(a, cur, cs[i]);
  }

  /** Dropping the head of one child list keeps the tree shape. */
  lemma DropFirstChild(mid: seq<Node>, n: int)
    requires Walkable(mid) && 0 <= n < |mid| && mid[n].children != []
    ensures Walkable(mid[n := mid[n].(children := mid[n].children[1..])])
  {
    var next := mid[n := mid[n].(children := mid[n].children[1..])];
    forall m, k | 0 <= m < |next| && 0 <= k < |next[m].children|
      ensures next[m].children[k] == mid[m].children[if m == n then k + 1 else k]
    {
    }
  }

  /** One round of test_tree's loop: the consumed part grows by the subtree of cs[i]. */
  lemma ConsumeStep(a: seq<Node>, cur: seq<Node>, mid: seq<Node>, n: int, cs: seq<int>, i: int)
    requires Walkable(a) && 0 <= n < |a| && cs == a[n].children && 0 <= i < |cs|
    requires Shaped(cur) && Consumed(a, cur, n, cs, i)
    requires Walkable(mid) && Emptied(cur, mid, cs[i]) && mid[n] == cur[n]
    ensures var next := mid[n := mid[n].(children := mid[n].children[1..])];
      Walkable(next) && Consumed(a, next, n, cs, i + 1)
  {
    var c := cs[i];
    ConsumeFrame(a, cur, n, cs, i);
    assert cs[..i + 1][..i] == cs[..i] && cs[..i + 1][i] == c;
    assert SubAll(a, cs[..i + 1], n) == SubAll(a, cs[..i], n) + Sub(a, c);
    DropFirstChild(mid, n);
    assert cs[i..][1..] == cs[i + 1..];
  }

  /** The leaves and combinations of the first i+1 children are those of the first i and then of cs[i]. */
  lemma ConsumeLeaves(a: seq<Node>, cur: seq<Node>, n: int, cs: seq<int>, i: int)
    requires Walkable(a) && 0 <= n < |a| && cs == a[n].children && 0 <= i < |cs|
    requires Shaped(cur) && Consumed(a, cur, n, cs, i)
    ensures LeavesAll(a, cs[..i + 1], n) == LeavesAll(a, cs[..i], n) + Leaves(cur, cs[i])
    ensures Combos(a, LeavesAll(a, cs[..i + 1], n)) == Combos(a, LeavesAll(a, cs[..i], n)) + Combos(cur, Leaves(cur, cs[i]))
  {
    var c := cs[i];
    var ls, l := LeavesAll(a, cs[..i], n), Leaves(a, c);
    ConsumeFrame(a, cur, n, cs, i);
    assert LeavesAll(a, cs[..i + 1], n) == ls + l by {
      assert cs[..i + 1][..i] == cs[..i] && cs[..i + 1][i] == c;
    }
    assert Combos(cur, l) == Combos(a, l) by {
      assert Extends(a, cur);
      CombosFrame(a, cur, l);
    }
    CombosAppend(a, ls, l);
  }

  /**
   * The counters and the output of test_tree's loop after i children of n:
   * one count per leaf reached from them and their combinations in order.
   */
  ghost predicate Tally(a: seq<Node>, n: int, cs: seq<int>, i: int,
                        t0: int, t: int, b0: int, b: int, e0: seq<seq<seq<int>>>, e: seq<seq<seq<int>>>)
    requires Shaped(a) && 0 <= n < |a| && cs == a[n].children && 0 <= i <= |cs|
  {
    var ls := LeavesAll(a, cs[..i], n);
    t == t0 + |ls| && b == b0 + |ls| && e == e0 + Combos(a, ls)
  }

  /** One round of test_tree's loop adds the leaves of cs[i] to the tally. */
  lemma TallyStep(a: seq<Node>, cur: seq<Node>, n: int, cs: seq<int>, i: int,
                  t0: int, t: int, t': int, b0: int, b: int, b': int,
                  e0: seq<seq<seq<int>>>, e: seq<seq<seq<int>>>, e': seq<seq<seq<int>>>)
    requires Walkable(a) && 0 <= n < |a| && cs == a[n].children && 0 <= i < |cs|
    requires Shaped(cur) && Consumed(a, cur, n, cs, i)
    requires Tally(a, n, cs, i, t0, t, b0, b, e0, e)
    requires t' == t + |Leaves(cur, cs[i])| && b' == b + |Leaves(cur, cs[i])|
    requires e' == e + Combos(cur, Leaves(cur, cs[i]))
    ensures Tally(a, n, cs, i + 1, t0, t', b0, b', e0, e')
  {
    var ls, l := LeavesAll(a, cs[..i], n), Leaves(cur, cs[i]);
    ConsumeLeaves(a, cur, n, cs, i);
    EmittedInOrder(e0, Combos(a, ls), Combos(cur, l));
  }

  /** When the loop ends, the whole subtree of n is consumed. */
  lemma ConsumedAll(a: seq<Node>, b: seq<Node>, n: int, cs: seq<int>, i: int)
    requires Shaped(a) && 0 <= n < |a| && cs == a[n].children != [] && i == |cs|
    requires Consumed(a, b, n, cs, i)
    ensures Emptied(a, b, n) && Leaves(a, n) == LeavesAll(a, cs[..i], n)
  {
    assert cs[..i] == cs;
  }

}
