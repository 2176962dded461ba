/**
 * What the header table of a built FP-tree collects: following the chain
 * of horizontal links of a frequent item and adding up the counts of its
 * nodes gives the item's support over the database, the figure pass1
 * computed.  Each transaction's projection keeps every occurrence of a
 * frequent item, each occurrence lies on exactly one node of the tree, and
 * a node's count is the number of projections through it.
 */
module ChainSupport {
  import opened Sort
  import opened FrequencyPass
  import opened TreeSpec
  import opened TreeFacts
  import opened ChainOrder
  import opened TreeLog
  import opened Build

  /** The counts of the nodes ns, added up. */
  ghost function CountSum(nodes: seq<Node>, ns: seq<int>): int
    requires forall i :: 0 <= i < |ns| ==> 0 <= ns[i] < |nodes|
  {
    if ns == [] then 0 else nodes[ns[0]].count + CountSum(nodes, ns[1..])
  }

  /** The counts along the chain of horizontal links of rank r, from its header entry. */
  ghost function ChainCount(a: Tree, rankItem: seq<int>, r: int): int
    requires ChainsLinked(a, rankItem) && 0 <= r < |rankItem|
  {
    ChainListsHolders(a, rankItem, r);
    CountSum(a.nodes, Chain(a, rankItem, a.header[r]))
  }

  /** The number of nodes from `from` on that hold x and lie on P. */
  ghost function OnP(nodes: seq<Node>, x: int, from: nat, P: seq<int>): nat
    requires ParentsBelow(nodes)
    decreases |nodes| - from
  {
    if from >= |nodes| then 0
    else (if nodes[from].item == x && Path(nodes, from) <= P then 1 else 0) + OnP(nodes, x, from + 1, P)
  }

  /** Over the nodes from `from` on that hold x, the number of entries of L through each, added up. */
  ghost function HoldThrough(nodes: seq<Node>, x: int, from: nat, L: seq<seq<int>>): nat
    requires ParentsBelow(nodes)
    decreases |nodes| - from
  {
    if from >= |nodes| then 0
    else (if nodes[from].item == x then Through(L, Path(nodes, from)) else 0) + HoldThrough(nodes, x, from + 1, L)
  }

  /** Over the entries of L, the number of nodes from `from` on that hold x and lie on the entry, added up. */
  ghost function LogOnP(nodes: seq<Node>, x: int, from: nat, L: seq<seq<int>>): nat
    requires ParentsBelow(nodes)
  {
    if L == [] then 0 else LogOnP(nodes, x, from, L[..|L| - 1]) + OnP(nodes, x, from, L[|L| - 1])
  }

  /** In a counted tree the counts of x's holders are the entries of L through them. */
  lemma {:induction false} HoldingCounts(a: Tree, L: seq<seq<int>>, x: int, from: nat)
    requires ParentsBelow(a.nodes) && Counted(a, L) && 1 <= from
    decreases |a.nodes| - from
    ensures CountSum(a.nodes, Holding(a.nodes, x, from)) == HoldThrough(a.nodes, x, from, L)
  {
    if from < |a.nodes| {
      var rest := Holding(a.nodes, x, from + 1);
      HoldingCounts(a, L, x, from + 1);
      if a.nodes[from].item == x {
        assert Holding(a.nodes, x, from) == [from] + rest;
        assert ([from] + rest)[1..] == rest;
      } else {
        assert Holding(a.nodes, x, from) == rest;
      }
    }
  }

  /** Logging one more entry P adds, for x's holders, the number of them on P. */
  lemma {:induction false} HoldThroughSnoc(nodes: seq<Node>, x: int, from: nat, L: seq<seq<int>>)
    requires ParentsBelow(nodes) && L != []
    decreases |nodes| - from
    ensures HoldThrough(nodes, x, from, L)
         == HoldThrough(nodes, x, from, L[..|L| - 1]) + OnP(nodes, x, from, L[|L| - 1])
  {
    if from < |nodes| {
      HoldThroughSnoc(nodes, x, from + 1, L);
    }
  }

  /** Summing over nodes then entries is summing over entries then nodes. */
  lemma {:induction false} HoldThroughLog(nodes: seq<Node>, x: int, from: nat, L: seq<seq<int>>)
    requires ParentsBelow(nodes)
    ensures HoldThrough(nodes, x, from, L) == LogOnP(nodes, x, from, L)
  {
    if L == [] {
      NoneThrough(nodes, x, from);
    } else {
      HoldThroughSnoc(nodes, x, from, L);
      HoldThroughLog(nodes, x, from, L[..|L| - 1]);
    }
  }

  /** With nothing logged, no holder is passed through. */
  lemma {:induction false} NoneThrough(nodes: seq<Node>, x: int, from: nat)
    requires ParentsBelow(nodes)
    decreases |nodes| - from
    ensures HoldThrough(nodes, x, from, []) == 0
  {
    if from < |nodes| {
      NoneThrough(nodes, x, from + 1);
    }
  }

  /** No non-root node lies on the empty sequence. */
  lemma {:induction false} OnEmpty(nodes: seq<Node>, x: int, from: nat)
    requires ParentsBelow(nodes) && 1 <= from
    decreases |nodes| - from
    ensures OnP(nodes, x, from, []) == 0
  {
    if from < |nodes| {
      PathLength(nodes, from);
      OnEmpty(nodes, x, from + 1);
    }
  }

  /**
   * When node m has path P, the nodes on P are those on P without its last
   * item, and m itself.
   */
  lemma {:induction false} OnSnoc(nodes: seq<Node>, x: int, from: nat, P: seq<int>, m: int)
    requires ParentsBelow(nodes) && PathsDistinct(nodes) && 1 <= from
    requires 1 <= m < |nodes| && Path(nodes, m) == P
    decreases |nodes| - from
    ensures |P| >= 1
    ensures OnP(nodes, x, from, P)
         == OnP(nodes, x, from, P[..|P| - 1]) + (if from <= m && P[|P| - 1] == x then 1 else 0)
  {
    PathLength(nodes, m);
    var front := P[..|P| - 1];
    if from < |nodes| {
      OnSnoc(nodes, x, from + 1, P, m);
      var q := Path(nodes, from);
      if from == m {
        assert nodes[m].item == P[|P| - 1];
        assert !(q <= front);
      } else {
        assert q != P by {
          if from < m {
            assert Path(nodes, from) != Path(nodes, m);
          } else {
            assert Path(nodes, m) != Path(nodes, from);
          }
        }
        assert q <= P <==> q <= front by {
          if q <= P {
            assert |q| < |P|;
            assert q == P[..|q|] == front[..|q|];
          }
          if q <= front {
            assert q == front[..|q|] == P[..|q|];
          }
        }
      }
    }
  }

  /** A sequence that is some node's path lies on exactly one node per occurrence of x in it. */
  lemma {:induction false} OnPathCount(nodes: seq<Node>, x: int, P: seq<int>)
    requires ParentsBelow(nodes) && PathsDistinct(nodes) && Covers(nodes, P)
    decreases |P|
    ensures OnP(nodes, x, 1, P) == CountIn(P, x)
  {
    if P == [] {
      OnEmpty(nodes, x, 1);
    } else {
      var m :| 0 <= m < |nodes| && Path(nodes, m) == P;
      PathLength(nodes, m);
      AncestorPath(nodes, m, |P| - 1);
      var front := P[..|P| - 1];
      OnSnoc(nodes, x, 1, P, m);
      OnPathCount(nodes, x, front);
    }
  }

  /** The positions paired with x in the projection are all RankOf(large, x). */
  lemma {:induction false} RanksOfItems(t: seq<int>, large: seq<int>)
    ensures |Items(t, large)| == |Ranks(t, large)|
    ensures forall k :: 0 <= k < |Ranks(t, large)| ==> Ranks(t, large)[k] == RankOf(large, Items(t, large)[k])
  {
    if t != [] {
      RanksOfItems(t[..|t| - 1], large);
    }
  }

  /** The projection keeps every occurrence of a frequent item. */
  lemma {:induction false} ItemsCount(t: seq<int>, large: seq<int>, x: int)
    requires RankOf(large, x) >= 0
    ensures CountIn(Items(t, large), x) == CountIn(t, x)
  {
    if t != [] {
      var front := t[..|t| - 1];
      ItemsCount(front, large, x);
      var y := t[|t| - 1];
      if RankOf(large, y) >= 0 {
        var s := Items(front, large) + [y];
        assert s[..|s| - 1] == Items(front, large);
      } else {
        assert y != x;
        assert Items(front, large) + [] == Items(front, large);
        assert CountIn(t, x) == CountIn(front, x);
      }
    }
  }

  /** Where x always sits beside key r, the occurrences of x are the pairs (r, x). */
  lemma {:induction false} CountInPairs(key: seq<int>, val: seq<int>, h: int, x: int, r: int)
    requires |key| == |val| && -1 <= h < |key|
    requires forall k :: 0 <= k <= h && val[k] == x ==> key[k] == r
    decreases h
    ensures CountIn(val[..h + 1], x) == Count(key, val, 0, h, r, x)
  {
    if h >= 0 {
      CountInPairs(key, val, h - 1, x, r);
      assert val[..h + 1][..h] == val[..h];
    }
  }

  /** A pair at position i of the range is counted. */
  lemma {:induction false} PairCounted(key: seq<int>, val: seq<int>, low: int, high: int, i: int)
    requires |key| == |val| && 0 <= low <= i <= high < |key|
    decreases high - low
    ensures Count(key, val, low, high, key[i], val[i]) >= 1
  {
    if i < high {
      PairCounted(key, val, low, high - 1, i);
    }
  }

  /** A counted pair occurs at some position of the range. */
  lemma {:induction false} PairOccurs(key: seq<int>, val: seq<int>, low: int, high: int, x: int, y: int) returns (i: int)
    requires |key| == |val| && 0 <= low <= high + 1 <= |key|
    requires Count(key, val, low, high, x, y) >= 1
    decreases high - low
    ensures low <= i <= high && key[i] == x && val[i] == y
  {
    if key[high] == x && val[high] == y {
      i := high;
    } else {
      i := PairOccurs(key, val, low, high - 1, x, y);
    }
  }

  /** A sorted projection holds each frequent item as often as the transaction does. */
  lemma ProjectionCount(t: seq<int>, large: seq<int>, P: seq<int>, R: seq<int>, x: int)
    requires Projected(t, large, P, R) && RankOf(large, x) >= 0
    ensures CountIn(P, x) == CountIn(t, x)
  {
    var ks, vs := Ranks(t, large), Items(t, large);
    var r, h := RankOf(large, x), |R| - 1;
    RanksOfItems(t, large);
    ItemsCount(t, large, x);
    forall k | 0 <= k <= h && P[k] == x
      ensures R[k] == r
    {
      PairCounted(R, P, 0, h, k);
      var i := PairOccurs(ks, vs, 0, h, R[k], P[k]);
    }
    CountInPairs(ks, vs, h, x, r);
    CountInPairs(R, P, h, x, r);
    assert vs[..h + 1] == vs && P[..h + 1] == P;
  }

  /** Over the logged projections, the nodes on them holding a frequent x add up to x's support. */
  lemma {:induction false} LogOnPSupport(nodes: seq<Node>, db: seq<seq<int>>, large: seq<int>,
                                        L: seq<seq<int>>, Rs: seq<seq<int>>, x: int)
    requires ParentsBelow(nodes) && PathsDistinct(nodes) && AllProjected(db, large, L, Rs)
    requires forall j :: 0 <= j < |L| ==> Covers(nodes, L[j])
    requires RankOf(large, x) >= 0
    decreases |db|
    ensures LogOnP(nodes, x, 1, L) == Support(db, x)
  {
    if db != [] {
      var n := |db| - 1;
      AllProjectedFront(db, large, L, Rs);
      LogOnPSupport(nodes, db[..n], large, L[..n], Rs[..n], x);
      OnPathCount(nodes, x, L[n]);
      ProjectionCount(db[n], large, L[n], Rs[n], x);
    }
  }

  /** The projections of all transactions but the last are those of the front of the database. */
  lemma AllProjectedFront(db: seq<seq<int>>, large: seq<int>, L: seq<seq<int>>, Rs: seq<seq<int>>)
    requires AllProjected(db, large, L, Rs) && db != []
    ensures AllProjected(db[..|db| - 1], large, L[..|L| - 1], Rs[..|Rs| - 1])
  {
    var n := |db| - 1;
    forall j | 0 <= j < n ensures Projected(db[..n][j], large, L[..n][j], Rs[..n][j]) {
      assert db[..n][j] == db[j] && L[..n][j] == L[j] && Rs[..n][j] == Rs[j];
    }
  }

  /**
   * In a well-formed tree that logs the sorted projection of every
   * transaction, the counts along the chain of each frequent item add up
   * to the item's support.
   */
  lemma ChainCountsSupport(db: seq<seq<int>>, large: seq<int>, L: seq<seq<int>>, Rs: seq<seq<int>>, a: Tree)
    requires WellFormed(a, large) && Logged(a, L) && AllProjected(db, large, L, Rs)
    ensures forall r :: 0 <= r < |large| ==> ChainCount(a, large, r) == Support(db, large[r])
  {
    PathsDistinctAll(a.nodes);
    forall r | 0 <= r < |large|
      ensures ChainCount(a, large, r) == Support(db, large[r])
    {
      var x := large[r];
      ChainListsHolders(a, large, r);
      HoldingCounts(a, L, x, 1);
      HoldThroughLog(a.nodes, x, 1, L);
      LogOnPSupport(a.nodes, db, large, L, Rs, x);
    }
  }
}
