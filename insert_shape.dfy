/**
 * insert_tree keeps the tree shape: child lists and parent links agree,
 * and the children of each node keep pairwise distinct items, because a
 * child is only created for an item no existing child holds.
 */
module InsertShape {
  import opened TreeSpec
  import opened TreeFacts
  import opened InsertEffect
  import opened InsertChains

  /**
   * The walk goes from each node to a child of it holding the next item,
   * and when items are left over it ends at a node none of whose children
   * holds the first of them.
   */
  lemma {:induction false} DescentSteps(nodes: seq<Node>, P: seq<int>, ptr: nat, t: int)
    requires Shaped(nodes) && 0 <= t < |nodes| && ptr <= |P|
    decreases |P| - ptr
    ensures var D := Descent(nodes, P, ptr, t);
      && ptr + |D| - 1 <= |P|
      && (forall i :: 1 <= i < |D| ==> D[i] in nodes[D[i - 1]].children && nodes[D[i]].item == P[ptr + i - 1])
      && (ptr + |D| - 1 < |P| ==> ChildWith(nodes, nodes[D[|D| - 1]].children, P[ptr + |D| - 1]) == NULL)
  {
    if ptr < |P| {
      var c := ChildWith(nodes, nodes[t].children, P[ptr]);
      if c != NULL {
        DescentSteps(nodes, P, ptr + 1, c);
        var D1 := Descent(nodes, P, ptr + 1, c);
        var D := Descent(nodes, P, ptr, t);
        assert D == [t] + D1;
        forall i | 1 <= i < |D|
          ensures D[i] in nodes[D[i - 1]].children && nodes[D[i]].item == P[ptr + i - 1]
        {
          if i > 1 {
            assert D[i] == D1[i - 1] && D[i - 1] == D1[i - 2];
          }
        }
      }
    }
  }

  /** After an insertion with the effect Effect, every child names its parent and every node is listed by its parent. */
  lemma EffectChildrenLinked(a: Tree, P: seq<int>, ptr: nat, D: seq<int>, cnt: int, b: Tree, p: int)
    requires Shaped(a.nodes) && ChildrenLinked(a.nodes) && Shaped(b.nodes)
    requires 1 <= |D| && ptr + |D| - 1 <= |P| && forall i :: 0 <= i < |D| ==> 0 <= D[i] < |a.nodes|
    requires Effect(a, P, ptr, D, cnt, b, p)
    ensures ChildrenLinked(b.nodes)
  {
    var N := |a.nodes|;
    var k := ptr + |D| - 1;
    var tk := D[|D| - 1];
    var grow := k < |P|;
    forall n, j | 0 <= n < |b.nodes| && 0 <= j < |b.nodes[n].children|
      ensures b.nodes[b.nodes[n].children[j]].parent == n
    {
      if n < N {
        assert OldNode(a, b, n, D, cnt, p, grow);
        var c := b.nodes[n].children[j];
        if j < |a.nodes[n].children| {
          assert c == a.nodes[n].children[j];
          assert OldNode(a, b, c, D, cnt, p, grow);
        } else {
          assert c == N;
          assert NewNode(b, N, P, k, N, tk, cnt);
        }
      } else {
        assert NewNode(b, n, P, k, N, tk, cnt);
        assert NewNode(b, n + 1, P, k, N, tk, cnt);
      }
    }
    forall n | 1 <= n < |b.nodes|
      ensures n in b.nodes[b.nodes[n].parent].children
    {
      if n < N {
        assert OldNode(a, b, n, D, cnt, p, grow);
        var q := a.nodes[n].parent;
        assert n in a.nodes[q].children;
        assert OldNode(a, b, q, D, cnt, p, grow);
      } else if n == N {
        assert NewNode(b, N, P, k, N, tk, cnt);
        assert OldNode(a, b, tk, D, cnt, p, grow);
      } else {
        assert NewNode(b, n, P, k, N, tk, cnt);
        assert NewNode(b, n - 1, P, k, N, tk, cnt);
      }
    }
  }

  /** After such an insertion the children of each node still hold pairwise distinct items. */
  lemma EffectSiblingsDistinct(a: Tree, P: seq<int>, ptr: nat, D: seq<int>, cnt: int, b: Tree, p: int)
    requires Shaped(a.nodes) && SiblingsDistinct(a.nodes) && Shaped(b.nodes)
    requires 1 <= |D| && ptr + |D| - 1 <= |P| && forall i :: 0 <= i < |D| ==> 0 <= D[i] < |a.nodes|
    requires ptr + |D| - 1 < |P| ==> ChildWith(a.nodes, a.nodes[D[|D| - 1]].children, P[ptr + |D| - 1]) == NULL
    requires Effect(a, P, ptr, D, cnt, b, p)
    ensures SiblingsDistinct(b.nodes)
  {
    var N := |a.nodes|;
    var k := ptr + |D| - 1;
    var tk := D[|D| - 1];
    var grow := k < |P|;
    forall n | N <= n < |b.nodes| ensures |b.nodes[n].children| <= 1 {
      assert NewNode(b, n, P, k, N, tk, cnt);
    }
    forall n, i, j | 0 <= n < N && 0 <= i < j < |b.nodes[n].children|
      ensures b.nodes[b.nodes[n].children[i]].item != b.nodes[b.nodes[n].children[j]].item
    {
      assert OldNode(a, b, n, D, cnt, p, grow);
      var cs := a.nodes[n].children;
      var ci, cj := b.nodes[n].children[i], b.nodes[n].children[j];
      assert ci == cs[i];
      assert OldNode(a, b, ci, D, cnt, p, grow);
      if j < |cs| {
        assert cj == cs[j];
        assert OldNode(a, b, cj, D, cnt, p, grow);
      } else {
        assert cj == N && n == tk;
        assert NewNode(b, N, P, k, N, tk, cnt);
      }
    }
  }

  /**
   * insert_tree from node t, with path starting at 0, keeps a well-formed
   * tree well formed when the items it inserts are ranked frequent items.
   */
  lemma InsertWellFormed(a: Tree, rankItem: seq<int>, P: seq<int>, R: seq<int>, cnt: int, ptr: nat, t: int)
    requires WellFormed(a, rankItem) && 0 <= t < |a.nodes| && RankedItems(P, R, ptr, rankItem)
    ensures RanksIn(P, R, ptr, |a.header|)
    ensures WellFormed(Insert(a, P, R, cnt, ptr, t, 0).0, rankItem)
  {
    InsertKeepsChains(a, rankItem, P, R, cnt, ptr, t, 0);
    InsertChildrenLinked(a, P, R, cnt, ptr, t);
    InsertSiblingsDistinct(a, P, R, cnt, ptr, t);
  }

  /** insert_tree from node t, with path starting at 0, keeps child lists and parent links in agreement. */
  lemma InsertChildrenLinked(a: Tree, P: seq<int>, R: seq<int>, cnt: int, ptr: nat, t: int)
    requires Shaped(a.nodes) && ChildrenLinked(a.nodes) && 0 <= t < |a.nodes| && RanksIn(P, R, ptr, |a.header|)
    ensures ChildrenLinked(Insert(a, P, R, cnt, ptr, t, 0).0.nodes)
  {
    var res := Insert(a, P, R, cnt, ptr, t, 0);
    InsertHasEffect(a, P, R, cnt, ptr, t);
    DescentSteps(a.nodes, P, ptr, t);
    EffectChildrenLinked(a, P, ptr, Descent(a.nodes, P, ptr, t), cnt, res.0, res.1);
  }

  /** insert_tree from node t, with path starting at 0, keeps the items of siblings distinct. */
  lemma InsertSiblingsDistinct(a: Tree, P: seq<int>, R: seq<int>, cnt: int, ptr: nat, t: int)
    requires Shaped(a.nodes) && SiblingsDistinct(a.nodes) && 0 <= t < |a.nodes| && RanksIn(P, R, ptr, |a.header|)
    ensures SiblingsDistinct(Insert(a, P, R, cnt, ptr, t, 0).0.nodes)
  {
    var res := Insert(a, P, R, cnt, ptr, t, 0);
    InsertHasEffect(a, P, R, cnt, ptr, t);
    DescentSteps(a.nodes, P, ptr, t);
    EffectSiblingsDistinct(a, P, ptr, Descent(a.nodes, P, ptr, t), cnt, res.0, res.1);
  }
}
