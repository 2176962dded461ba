/**
 * insert_tree keeps the header table and the horizontal links in order:
 * every chain still starts at the first node holding its item and runs
 * through the nodes holding it in increasing id order.
 */
module InsertChains {
  import opened TreeSpec
  import opened TreeFacts
  import opened InsertEffect

  /** Raising numPath leaves the chains alone. */
  lemma ChainedAddPaths(b: Tree, rankItem: seq<int>, t: int, d: int)
    requires Chained(b, rankItem) && 0 <= t < |b.nodes|
    ensures Chained(Tree(AddPaths(b.nodes, t, d), b.header), rankItem)
  {
    ChainsFrame(b, Tree(AddPaths(b.nodes, t, d), b.header), rankItem);
  }

  /** The items P[ptr..] to insert are the ranked items their ranks R[ptr..] name. */
  ghost predicate RankedItems(P: seq<int>, R: seq<int>, ptr: nat, rankItem: seq<int>)
  {
    && |P| == |R| && ptr <= |P|
    && forall k :: ptr <= k < |P| ==> 0 <= R[k] < |rankItem| && rankItem[R[k]] == P[k]
  }

  /** insert_tree keeps the items ranked and the chains linked. */
  lemma {:induction false} InsertKeepsChains(a: Tree, rankItem: seq<int>, P: seq<int>, R: seq<int>,
                                             cnt: int, ptr: nat, t: int, path: int)
    requires Shaped(a.nodes) && Chained(a, rankItem) && 0 <= t < |a.nodes|
    requires RankedItems(P, R, ptr, rankItem)
    decreases |P| - ptr, 1
    ensures RanksIn(P, R, ptr, |a.header|)
    ensures Chained(Insert(a, P, R, cnt, ptr, t, path).0, rankItem)
  {
    if ptr < |P| {
      if a.nodes[t].children == [] || ChildWith(a.nodes, a.nodes[t].children, P[ptr]) == NULL {
        NewNodeChains(a, rankItem, P, R, cnt, ptr, t, path);
      } else {
        MatchChains(a, rankItem, P, R, cnt, ptr, t, path);
      }
    }
  }

  lemma {:induction false} NewNodeChains(a: Tree, rankItem: seq<int>, P: seq<int>, R: seq<int>,
                                         cnt: int, ptr: nat, t: int, path: int)
    requires Shaped(a.nodes) && Chained(a, rankItem) && 0 <= t < |a.nodes|
    requires RankedItems(P, R, ptr, rankItem) && ptr < |P|
    requires a.nodes[t].children == [] || ChildWith(a.nodes, a.nodes[t].children, P[ptr]) == NULL
    decreases |P| - ptr, 0
    ensures Chained(Insert(a, P, R, cnt, ptr, t, path).0, rankItem)
  {
    var b1 := AddNode(a, t, P[ptr], R[ptr], cnt);
    AddNodeChains(a, rankItem, t, P[ptr], R[ptr], cnt);
    NewNodeStep(a, P, R, cnt, ptr, t, path);
    InsertKeepsChains(b1, rankItem, P, R, cnt, ptr + 1, |a.nodes|, path);
    var res := Insert(b1, P, R, cnt, ptr + 1, |a.nodes|, path);
    ChainedAddPaths(res.0, rankItem, t, if a.nodes[t].children == [] then res.1 else res.1 + 1);
  }

  lemma {:induction false} MatchChains(a: Tree, rankItem: seq<int>, P: seq<int>, R: seq<int>,
                                       cnt: int, ptr: nat, t: int, path: int)
    requires Shaped(a.nodes) && Chained(a, rankItem) && 0 <= t < |a.nodes|
    requires RankedItems(P, R, ptr, rankItem) && ptr < |P|
    requires a.nodes[t].children != [] && ChildWith(a.nodes, a.nodes[t].children, P[ptr]) != NULL
    decreases |P| - ptr, 0
    ensures Chained(Insert(a, P, R, cnt, ptr, t, path).0, rankItem)
  {
    var c := ChildWith(a.nodes, a.nodes[t].children, P[ptr]);
    var b1 := CountShaped(a, t, c, P[ptr], cnt);
    ChainsFrame(a, b1, rankItem);
    MatchStep(a, P, R, cnt, ptr, t, c, b1, path);
    InsertKeepsChains(b1, rankItem, P, R, cnt, ptr + 1, c, path);
    var res := Insert(b1, P, R, cnt, ptr + 1, c, path);
    ChainedAddPaths(res.0, rankItem, t, res.1);
  }
}
