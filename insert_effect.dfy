/**
 * What one call of insert_tree does to the FP-tree, stated without
 * recursion: the existing nodes it walks through get their counts and
 * numPath raised, and the items left over once no child matches hang
 * below the last of them as a fresh chain of single children.
 */
module InsertEffect {
  import opened TreeSpec
  import opened TreeFacts

  /** The child found for x depends only on the items of the nodes. */
  lemma ChildWithFrame(a: seq<Node>, b: seq<Node>, cs: seq<int>, x: int)
    requires |a| == |b| && forall m :: 0 <= m < |a| ==> b[m].item == a[m].item
    requires forall k :: 0 <= k < |cs| ==> 0 <= cs[k] < |a|
    ensures ChildWith(b, cs, x) == ChildWith(a, cs, x)
  {
  }

  /** The walk depends only on the items and the child lists. */
  lemma {:induction false} DescentFrame(a: seq<Node>, b: seq<Node>, P: seq<int>, ptr: nat, t: int)
    requires Shaped(a) && Shaped(b) && |a| == |b| && 0 <= t < |a| && ptr <= |P|
    requires forall m :: 0 <= m < |a| ==> b[m].item == a[m].item && b[m].children == a[m].children
    decreases |P| - ptr
    ensures Descent(b, P, ptr, t) == Descent(a, P, ptr, t)
  {
    if ptr < |P| {
      ChildWithFrame(a, b, a[t].children, P[ptr]);
      var c := ChildWith(a, a[t].children, P[ptr]);
      if c != NULL {
        DescentFrame(a, b, P, ptr + 1, c);
      }
    }
  }

  /**
   * Node m of a as b keeps it: same item and parent; the count raised by
   * cnt if m is one of the walked nodes below the first, numPath raised by
   * p if m is one of the walked nodes, and the first new node appended to
   * the children of the last walked node when the walk left items over.
   */
  ghost predicate OldNode(a: Tree, b: Tree, m: int, D: seq<int>, cnt: int, p: int, grow: bool)
    requires 0 <= m < |a.nodes| <= |b.nodes| && 1 <= |D|
  {
    && b.nodes[m].item == a.nodes[m].item && b.nodes[m].parent == a.nodes[m].parent
    && b.nodes[m].count == a.nodes[m].count + (if m in D[1..] then cnt else 0)
    && b.nodes[m].numPath == a.nodes[m].numPath + (if m in D then p else 0)
    && b.nodes[m].children == a.nodes[m].children + (if grow && m == D[|D| - 1] then [|a.nodes|] else [])
  }

  /**
   * Node n of b is new, one of the nodes N, N+1, ... made for P[k..]: it
   * holds its item, count cnt and numPath 1; its parent is tk for the first
   * and the node before otherwise; its only child is the node after.
   */
  ghost predicate NewNode(b: Tree, n: int, P: seq<int>, k: int, N: int, tk: int, cnt: int)
    requires 0 <= N <= n < |b.nodes| && 0 <= k + n - N < |P|
  {
    && b.nodes[n].item == P[k + n - N] && b.nodes[n].count == cnt && b.nodes[n].numPath == 1
    && b.nodes[n].parent == (if n == N then tk else n - 1)
    && b.nodes[n].children == (if n + 1 < |b.nodes| then [n + 1] else [])
  }

  /**
   * b and p are what insert_tree(P, R, cnt, ptr, |P|, t, path) leaves
   * when path starts at 0 and D is the walk from t.  With k the number of
   * items matched by the end of the walk, the items P[k..] become new nodes
   * |a|, |a|+1, ..., each the only child of the one before and the first
   * a child of the last node of D; every node of D below t gains cnt;
   * every node of D gains p in numPath; p is 1 exactly when a new branch
   * starts beside existing children, and a new leaf then adds to the leaf
   * count of each node on the way.  Only the horizontal links are left to
   * other lemmas.
   */
  ghost predicate Effect(a: Tree, P: seq<int>, ptr: nat, D: seq<int>, cnt: int, b: Tree, p: int)
    requires 1 <= |D| && ptr + |D| - 1 <= |P| && forall i :: 0 <= i < |D| ==> 0 <= D[i] < |a.nodes|
  {
    var k := ptr + |D| - 1;
    var tk := D[|D| - 1];
    var N := |a.nodes|;
    && |b.nodes| == N + |P| - k
    && p == (if k < |P| && a.nodes[tk].children != [] then 1 else 0)
    && (forall m {:trigger b.nodes[m]} :: 0 <= m < N ==> OldNode(a, b, m, D, cnt, p, k < |P|))
    && (forall n {:trigger b.nodes[n]} :: N <= n < |b.nodes| ==> NewNode(b, n, P, k, N, tk, cnt))
  }

  /** insert_tree from node t with path 0 has the effect Effect describes. */
  lemma {:induction false} InsertHasEffect(a: Tree, P: seq<int>, R: seq<int>, cnt: int, ptr: nat, t: int)
    requires Shaped(a.nodes) && 0 <= t < |a.nodes| && RanksIn(P, R, ptr, |a.header|)
    decreases |P| - ptr, 1
    ensures Effect(a, P, ptr, Descent(a.nodes, P, ptr, t), cnt, Insert(a, P, R, cnt, ptr, t, 0).0, Insert(a, P, R, cnt, ptr, t, 0).1)
  {
    if ptr < |P| {
      if a.nodes[t].children == [] || ChildWith(a.nodes, a.nodes[t].children, P[ptr]) == NULL {
        NewNodeEffect(a, P, R, cnt, ptr, t);
      } else {
        MatchEffect(a, P, R, cnt, ptr, t);
      }
    } else {
      assert Descent(a.nodes, P, ptr, t) == [t];
      var D := [t];
      forall m | 0 <= m < |a.nodes| ensures OldNode(a, a, m, D, cnt, 0, false) {
      }
    }
  }

  /** Cases 1 and 2 of insert_tree, one level unfolded. */
  lemma NewNodeStep(a: Tree, P: seq<int>, R: seq<int>, cnt: int, ptr: nat, t: int, path: int)
    requires Shaped(a.nodes) && 0 <= t < |a.nodes| && RanksIn(P, R, ptr, |a.header|) && ptr < |P|
    requires a.nodes[t].children == [] || ChildWith(a.nodes, a.nodes[t].children, P[ptr]) == NULL
    ensures var res := Insert(AddNode(a, t, P[ptr], R[ptr], cnt), P, R, cnt, ptr + 1, |a.nodes|, path);
            var d := if a.nodes[t].children == [] then res.1 else res.1 + 1;
            Insert(a, P, R, cnt, ptr, t, path) == (Tree(AddPaths(res.0.nodes, t, d), res.0.header), d)
    ensures Descent(a.nodes, P, ptr, t) == [t]
  {
  }

  /** Case 3 of insert_tree, one level unfolded. */
  lemma MatchStep(a: Tree, P: seq<int>, R: seq<int>, cnt: int, ptr: nat, t: int, c: int, b1: Tree, path: int)
    requires Shaped(a.nodes) && 0 <= t < |a.nodes| && RanksIn(P, R, ptr, |a.header|) && ptr < |P|
    requires a.nodes[t].children != [] && c == ChildWith(a.nodes, a.nodes[t].children, P[ptr]) != NULL
    requires b1 == Tree(a.nodes[c := a.nodes[c].(count := a.nodes[c].count + cnt)], a.header)
    requires Shaped(b1.nodes)
    ensures var res := Insert(b1, P, R, cnt, ptr + 1, c, path);
            Insert(a, P, R, cnt, ptr, t, path) == (Tree(AddPaths(res.0.nodes, t, res.1), res.0.header), res.1)
  {
  }

  /** Raising a count keeps the shape. */
  lemma CountShaped(a: Tree, t: int, c: int, x: int, cnt: int) returns (b1: Tree)
    requires Shaped(a.nodes) && 0 <= t < |a.nodes| && a.nodes[t].children != []
    requires c == ChildWith(a.nodes, a.nodes[t].children, x) != NULL
    ensures t < c < |a.nodes|
    ensures b1 == Tree(a.nodes[c := a.nodes[c].(count := a.nodes[c].count + cnt)], a.header)
    ensures Shaped(b1.nodes)
  {
    b1 := Tree(a.nodes[c := a.nodes[c].(count := a.nodes[c].count + cnt)], a.header);
  }

  /** The walk of case 3 goes on from the matching child, whose count alone has changed. */
  lemma MatchDescent(a: Tree, P: seq<int>, ptr: nat, t: int, c: int, b1: Tree, cnt: int)
    requires Shaped(a.nodes) && Shaped(b1.nodes) && 0 <= t < |a.nodes| && ptr < |P|
    requires a.nodes[t].children != [] && c == ChildWith(a.nodes, a.nodes[t].children, P[ptr]) != NULL
    requires 0 <= c < |a.nodes| && b1 == Tree(a.nodes[c := a.nodes[c].(count := a.nodes[c].count + cnt)], a.header)
    ensures Descent(a.nodes, P, ptr, t) == [t] + Descent(b1.nodes, P, ptr + 1, c)
  {
    DescentFrame(a.nodes, b1.nodes, P, ptr + 1, c);
  }

  /** A new node for P[ptr] below t, followed by an insertion from it, has the effect of cases 1 and 2. */
  lemma ComposeNew(a: Tree, b1: Tree, b2: Tree, p2: int, P: seq<int>, ptr: nat, t: int, r: int, cnt: int)
    requires Shaped(a.nodes) && 0 <= t < |a.nodes| && 0 <= r < |a.header| && ptr < |P|
    requires b1 == AddNode(a, t, P[ptr], r, cnt)
    requires Effect(b1, P, ptr + 1, [|a.nodes|], cnt, b2, p2)
    ensures var d := if a.nodes[t].children == [] then p2 else p2 + 1;
            Effect(a, P, ptr, [t], cnt, Tree(AddPaths(b2.nodes, t, d), b2.header), d)
  {
    var N := |a.nodes|;
    AddNodeFacts(a, t, P[ptr], r, cnt);
    var d := if a.nodes[t].children == [] then p2 else p2 + 1;
    var b := Tree(AddPaths(b2.nodes, t, d), b2.header);
    var D, D1 := [t], [N];
    var grow := true;
    forall m | 0 <= m < N
      ensures OldNode(a, b, m, D, cnt, d, grow)
    {
      assert OldNode(b1, b2, m, D1, cnt, p2, ptr + 1 < |P|);
    }
    forall n | N <= n < |b.nodes|
      ensures NewNode(b, n, P, ptr, N, t, cnt)
    {
      if n == N {
        assert OldNode(b1, b2, N, D1, cnt, p2, ptr + 1 < |P|);
      } else {
        assert NewNode(b2, n, P, ptr + 1, N + 1, N, cnt);
      }
    }
  }

  /** Raising the count of the matching child c and inserting from it has the effect of case 3. */
  lemma ComposeMatch(a: Tree, b1: Tree, b2: Tree, p2: int, P: seq<int>, ptr: nat, t: int, c: int, D1: seq<int>, cnt: int)
    requires 0 <= t < c < |a.nodes| && ptr < |P|
    requires b1 == Tree(a.nodes[c := a.nodes[c].(count := a.nodes[c].count + cnt)], a.header)
    requires 1 <= |D1| && D1[0] == c && ptr + 1 + |D1| - 1 <= |P|
    requires forall i :: 0 <= i < |D1| ==> c <= D1[i] < |a.nodes|
    requires forall i :: 0 < i < |D1| ==> c < D1[i]
    requires Effect(b1, P, ptr + 1, D1, cnt, b2, p2)
    ensures Effect(a, P, ptr, [t] + D1, cnt, Tree(AddPaths(b2.nodes, t, p2), b2.header), p2)
  {
    var N := |a.nodes|;
    var D := [t] + D1;
    var b := Tree(AddPaths(b2.nodes, t, p2), b2.header);
    var k := ptr + |D| - 1;
    var grow := k < |P|;
    assert D[1..] == D1 == [c] + D1[1..];
    assert t !in D1;
    assert c !in D1[1..];
    forall m | 0 <= m < N
      ensures OldNode(a, b, m, D, cnt, p2, grow)
    {
      assert OldNode(b1, b2, m, D1, cnt, p2, grow);
    }
    var tk := D1[|D1| - 1];
    assert D[|D| - 1] == tk;
    forall n | N <= n < |b.nodes|
      ensures NewNode(b, n, P, k, N, tk, cnt)
    {
      assert NewNode(b2, n, P, k, N, tk, cnt);
    }
  }

  /** Cases 1 and 2 of insert_tree: no child of t holds P[ptr], so a new one is made. */
  lemma {:induction false} NewNodeEffect(a: Tree, P: seq<int>, R: seq<int>, cnt: int, ptr: nat, t: int)
    requires Shaped(a.nodes) && 0 <= t < |a.nodes| && RanksIn(P, R, ptr, |a.header|) && ptr < |P|
    requires a.nodes[t].children == [] || ChildWith(a.nodes, a.nodes[t].children, P[ptr]) == NULL
    decreases |P| - ptr, 0
    ensures Effect(a, P, ptr, Descent(a.nodes, P, ptr, t), cnt, Insert(a, P, R, cnt, ptr, t, 0).0, Insert(a, P, R, cnt, ptr, t, 0).1)
  {
    var N := |a.nodes|;
    var b1 := AddNode(a, t, P[ptr], R[ptr], cnt);
    NewNodeStep(a, P, R, cnt, ptr, t, 0);
    assert Descent(b1.nodes, P, ptr + 1, N) == [N];
    InsertHasEffect(b1, P, R, cnt, ptr + 1, N);
    var res := Insert(b1, P, R, cnt, ptr + 1, N, 0);
    ComposeNew(a, b1, res.0, res.1, P, ptr, t, R[ptr], cnt);
  }

  /** Case 3 of insert_tree: the child c of t holds P[ptr]; its count grows and the walk goes on from c. */
  lemma {:induction false} MatchEffect(a: Tree, P: seq<int>, R: seq<int>, cnt: int, ptr: nat, t: int)
    requires Shaped(a.nodes) && 0 <= t < |a.nodes| && RanksIn(P, R, ptr, |a.header|) && ptr < |P|
    requires a.nodes[t].children != [] && ChildWith(a.nodes, a.nodes[t].children, P[ptr]) != NULL
    decreases |P| - ptr, 0
    ensures Effect(a, P, ptr, Descent(a.nodes, P, ptr, t), cnt, Insert(a, P, R, cnt, ptr, t, 0).0, Insert(a, P, R, cnt, ptr, t, 0).1)
  {
    var c := ChildWith(a.nodes, a.nodes[t].children, P[ptr]);
    var b1 := CountShaped(a, t, c, P[ptr], cnt);
    MatchStep(a, P, R, cnt, ptr, t, c, b1, 0);
    MatchDescent(a, P, ptr, t, c, b1, cnt);
    InsertHasEffect(b1, P, R, cnt, ptr + 1, c);
    var res := Insert(b1, P, R, cnt, ptr + 1, c, 0);
    ComposeMatch(a, b1, res.0, res.1, P, ptr, t, c, Descent(b1.nodes, P, ptr + 1, c), cnt);
  }
}
