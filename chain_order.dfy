/**
 * Following a chain of horizontal links from its header entry lists the
 * nodes holding the chain's item, every one of them once, in increasing
 * id order, which is the order insert_tree created them in.
 */
module ChainOrder {
  import opened TreeSpec
  import opened TreeFacts

  /** The ids from `from` on of the nodes holding x, in increasing order. */
  ghost function Holding(nodes: seq<Node>, x: int, from: nat): (r: seq<int>)
    decreases |nodes| - from
    ensures forall i :: 0 <= i < |r| ==> from <= r[i] < |nodes| && nodes[r[i]].item == x
    ensures forall i, j :: 0 <= i < j < |r| ==> r[i] < r[j]
  {
    if from >= |nodes| then []
    else (if nodes[from].item == x then [from] else []) + Holding(nodes, x, from + 1)
  }

  /** The nodes visited by following horizontal links from node h. */
  ghost function Chain(a: Tree, rankItem: seq<int>, h: int): seq<int>
    requires ChainsLinked(a, rankItem) && (h == NULL || 1 <= h < |a.nodes|)
    decreases if h == NULL then 0 else |a.nodes| - h
  {
    if h == NULL then []
    else
      assert a.nodes[h].hlink == NextWith(a.nodes, h);
      [h] + Chain(a, rankItem, a.nodes[h].hlink)
  }

  /** Every id in Holding(x, from) is at least the first node holding x from `from` on. */
  lemma {:induction false} HoldingFromFirst(nodes: seq<Node>, x: int, from: nat)
    decreases |nodes| - from
    ensures var f := FirstWith(nodes, x, from);
      Holding(nodes, x, from) == if f == NULL then [] else [f] + Holding(nodes, x, f + 1)
  {
    if from < |nodes| && nodes[from].item != x {
      HoldingFromFirst(nodes, x, from + 1);
    }
  }

  /** The chain from the first node holding x from `from` on is Holding(x, from). */
  lemma {:induction false} ChainFrom(a: Tree, rankItem: seq<int>, x: int, from: nat)
    requires ChainsLinked(a, rankItem) && 1 <= from
    decreases |a.nodes| - from
    ensures Chain(a, rankItem, FirstWith(a.nodes, x, from)) == Holding(a.nodes, x, from)
  {
    var f := FirstWith(a.nodes, x, from);
    HoldingFromFirst(a.nodes, x, from);
    if f != NULL {
      assert a.nodes[f].hlink == NextWith(a.nodes, f) == FirstWith(a.nodes, x, f + 1);
      ChainFrom(a, rankItem, x, f + 1);
    }
  }

  /**
   * In a tree whose chains are linked, the chain of rank r lists exactly
   * the nodes holding rankItem[r], each once, in the order they were created.
   */
  lemma ChainListsHolders(a: Tree, rankItem: seq<int>, r: int)
    requires ChainsLinked(a, rankItem) && 0 <= r < |rankItem|
    ensures a.header[r] == NULL || 1 <= a.header[r] < |a.nodes|
    ensures Chain(a, rankItem, a.header[r]) == Holding(a.nodes, rankItem[r], 1)
  {
    ChainFrom(a, rankItem, rankItem[r], 1);
  }
}
