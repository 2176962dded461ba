/**
 * buildTree of fpt.cpp and the part of main that drives it: each
 * transaction is projected onto the frequent items (keeping, for each, its
 * position in the frequent-item list), the projection is sorted by that
 * position with q_sortA and inserted from the root with insert_tree.  Then
 * test_tree walks the finished tree.  The data file becomes the sequence
 * of its transactions.
 */
module Build {
  import opened Sort
  import opened FrequencyPass
  import opened TreeSpec
  import opened TreeFacts
  import opened InsertChains
  import opened TreeLog
  import opened Branches
  import opened FpTree

  /** The position of x in the frequent-item list `large`, the first one when it repeats; -1 when x is not frequent. */
  function RankOf(large: seq<int>, x: int): (r: int)
    ensures -1 <= r < |large|
    ensures r >= 0 ==> large[r] == x && forall k :: 0 <= k < r ==> large[k] != x
    ensures r == -1 ==> x !in large
  {
    if large == [] then -1
    else
      var r := RankOf(large[..|large| - 1], x);
      if r >= 0 then r
      else if large[|large| - 1] == x then |large| - 1
      else -1
  }

  /** The positions in `large` of the frequent items of t, in transaction order (buildTree's indexList). */
  function Ranks(t: seq<int>, large: seq<int>): (r: seq<int>)
    ensures |r| <= |t| && forall k :: 0 <= k < |r| ==> 0 <= r[k] < |large|
  {
    if t == [] then []
    else
      var m := RankOf(large, t[|t| - 1]);
      Ranks(t[..|t| - 1], large) + (if m >= 0 then [m] else [])
  }

  /** The frequent items of t, in transaction order (buildTree's freqItemP). */
  function Items(t: seq<int>, large: seq<int>): (r: seq<int>)
  {
    if t == [] then []
    else
      var x := t[|t| - 1];
      Items(t[..|t| - 1], large) + (if RankOf(large, x) >= 0 then [x] else [])
  }

  /**
   * The two lists the projection builds side by side: they have one entry
   * per frequent item of t, and each item is the frequent item its
   * position names.
   */
  lemma {:induction false} ItemsAtRanks(t: seq<int>, large: seq<int>)
    ensures |Items(t, large)| == |Ranks(t, large)|
    ensures forall k :: 0 <= k < |Ranks(t, large)| ==> large[Ranks(t, large)[k]] == Items(t, large)[k]
  {
    if t != [] {
      ItemsAtRanks(t[..|t| - 1], large);
    }
  }

  /** A prefix of a transaction has no more frequent entries than the whole. */
  lemma {:induction false} RanksPrefix(t: seq<int>, j: int, large: seq<int>)
    requires 0 <= j <= |t|
    decreases |t|
    ensures |Ranks(t[..j], large)| <= |Ranks(t, large)|
  {
    if j < |t| {
      var front := t[..|t| - 1];
      assert front[..j] == t[..j];
      RanksPrefix(front, j, large);
    } else {
      assert t[..j] == t;
    }
  }

  /** The number of entries of t that belong to S. */
  ghost function CountAmong(t: seq<int>, S: set<int>): nat
  {
    if t == [] then 0 else CountAmong(t[..|t| - 1], S) + (if t[|t| - 1] in S then 1 else 0)
  }

  /** The projection of t has one entry per entry of t that is a frequent item. */
  lemma {:induction false} RanksCount(t: seq<int>, large: seq<int>, S: set<int>)
    requires forall x :: x in large <==> x in S
    ensures |Ranks(t, large)| == CountAmong(t, S)
  {
    if t != [] {
      RanksCount(t[..|t| - 1], large, S);
    }
  }

  /** The projection holds exactly the items of t that are frequent. */
  lemma {:induction false} ItemsAreFrequent(t: seq<int>, large: seq<int>)
    ensures forall x :: x in Items(t, large) <==> x in t && x in large
  {
    if t != [] {
      var front := t[..|t| - 1];
      ItemsAreFrequent(front, large);
      assert t == front + [t[|t| - 1]];
      forall x ensures x in t <==> x in front || x == t[|t| - 1] {
      }
    }
  }

  /**
   * What buildTree inserts for transaction t: the projection's items P with
   * their positions R, rearranged as pairs and ascending by position.
   */
  ghost predicate Projected(t: seq<int>, large: seq<int>, P: seq<int>, R: seq<int>)
  {
    && |P| == |R| == |Ranks(t, large)| == |Items(t, large)|
    && SamePairs(Ranks(t, large), Items(t, large), R, P, 0, |R| - 1)
    && forall i, j :: 0 <= i < j < |R| ==> R[i] <= R[j]
  }

  /** L and Rs hold, transaction by transaction, a sorted projection of db. */
  ghost predicate AllProjected(db: seq<seq<int>>, large: seq<int>, L: seq<seq<int>>, Rs: seq<seq<int>>)
  {
    |L| == |Rs| == |db| && forall j :: 0 <= j < |db| ==> Projected(db[j], large, L[j], Rs[j])
  }

  lemma AllProjectedStep(db: seq<seq<int>>, i: int, large: seq<int>, L: seq<seq<int>>, Rs: seq<seq<int>>, P: seq<int>, R: seq<int>)
    requires 0 <= i < |db| && AllProjected(db[..i], large, L, Rs) && Projected(db[i], large, P, R)
    ensures AllProjected(db[..i + 1], large, L + [P], Rs + [R])
  {
    forall j | 0 <= j < i + 1 ensures Projected(db[..i + 1][j], large, (L + [P])[j], (Rs + [R])[j]) {
      if j < i {
        assert db[..i + 1][j] == db[..i][j] && (L + [P])[j] == L[j] && (Rs + [R])[j] == Rs[j];
      }
    }
  }

  /**
   * A sorted projection names ranked frequent items, so insert_tree may
   * take it, and it holds exactly the frequent items of the transaction.
   */
  lemma ProjectedRanked(t: seq<int>, large: seq<int>, P: seq<int>, R: seq<int>)
    requires Projected(t, large, P, R)
    ensures RankedItems(P, R, 0, large)
    ensures forall x :: x in P <==> x in t && x in large
  {
    var r0, p0 := Ranks(t, large), Items(t, large);
    ItemsAtRanks(t, large);
    ItemsAreFrequent(t, large);
    forall k | 0 <= k < |P| ensures 0 <= R[k] < |large| && large[R[k]] == P[k] && P[k] in p0 {
      SamePairsSource(r0, p0, R, P, 0, |R| - 1, k);
    }
    forall x | x in t && x in large ensures x in P {
      var m :| 0 <= m < |p0| && p0[m] == x;
      SamePairsSource(R, P, r0, p0, 0, |R| - 1, m);
    }
  }

  /** Sorting the projection's two lists by position, pairs kept together, gives a sorted projection. */
  lemma SortedProjection(t: seq<int>, large: seq<int>, r0: seq<int>, p0: seq<int>, r1: seq<int>, p1: seq<int>, count: int)
    requires |r0| == |p0| == |r1| == |p1| && 0 <= count <= |r0|
    requires count == |Ranks(t, large)| && r0[..count] == Ranks(t, large) && p0[..count] == Items(t, large)
    requires SamePairs(r0, p0, r1, p1, 0, count - 1)
    requires forall i, j :: 0 <= i < j <= count - 1 ==> r1[i] <= r1[j]
    ensures Projected(t, large, p1[..count], r1[..count])
  {
    var rk, it := Ranks(t, large), Items(t, large);
    var R, P := r1[..count], p1[..count];
    ItemsAtRanks(t, large);
    SamePairsFrame(rk, it, r0, p0, 0, count - 1);
    SamePairsFrame(r1, p1, R, P, 0, count - 1);
    SamePairsTrans(rk, it, r0, p0, r1, p1, 0, count - 1);
    SamePairsTrans(rk, it, r1, p1, R, P, 0, count - 1);
  }

  /**
   * buildTree's search of the frequent-item list for a transaction item:
   * the position of its first occurrence, or numLarge0 when it is not
   * frequent.
   */
  method SearchLarge(largeItem1: array<int>, numLarge0: int, item: int) returns (m: int)
    requires 0 <= numLarge0 <= largeItem1.Length
    ensures m == if RankOf(largeItem1[..numLarge0], item) >= 0 then RankOf(largeItem1[..numLarge0], item) else numLarge0
  {
    m := 0;
    while m < numLarge0 && item != largeItem1[m]
      invariant 0 <= m <= numLarge0
      invariant forall k :: 0 <= k < m ==> largeItem1[k] != item
    {
      m := m + 1;
    }
    ghost var r := RankOf(largeItem1[..numLarge0], item);
    if m < numLarge0 {
      assert largeItem1[..numLarge0][m] == item;
    } else {
      assert item !in largeItem1[..numLarge0];
    }
  }

  /**
   * The projection loop of buildTree: for each item of t, the frequent-item
   * list is searched from the front and, on a match, the item and its
   * position are appended to freqItemP and indexList.
   */
  method Project(t: seq<int>, largeItem1: array<int>, numLarge0: int, freqItemP: array<int>, indexList: array<int>)
    returns (count: int)
    requires 0 <= numLarge0 <= largeItem1.Length && |Ranks(t, largeItem1[..numLarge0])| <= freqItemP.Length == indexList.Length
    requires freqItemP != indexList && largeItem1 != freqItemP && largeItem1 != indexList
    modifies freqItemP, indexList
    ensures count == |Ranks(t, largeItem1[..numLarge0])|
    ensures freqItemP[..count] == Items(t, largeItem1[..numLarge0])
    ensures indexList[..count] == Ranks(t, largeItem1[..numLarge0])
  {
    ghost var large := largeItem1[..numLarge0];
    ItemsAtRanks(t, large);
    count := 0;
    for j := 0 to |t|
      invariant count == |Ranks(t[..j], large)| == |Items(t[..j], large)| <= j
      invariant count <= |Ranks(t, large)|
      invariant freqItemP[..count] == Items(t[..j], large)
      invariant indexList[..count] == Ranks(t[..j], large)
    {
      ItemsAtRanks(t[..j + 1], large);
      RanksPrefix(t, j + 1, large);
      assert t[..j + 1][..j] == t[..j];
      var item := t[j];
      var m := SearchLarge(largeItem1, numLarge0, item);
      if m < numLarge0 {
        freqItemP[count] := item;
        indexList[count] := m;
        count := count + 1;
      }
    }
    assert t[..|t|] == t;
  }

  /**
   * The first part of buildTree's loop body: the projection of t followed
   * by q_sortA on its first count entries, which leaves in the two arrays
   * the projection sorted by position.
   */
  method SortedProjectionOf(t: seq<int>, largeItem1: array<int>, numLarge0: int, freqItemP: array<int>, indexList: array<int>)
    returns (count: int)
    requires 0 <= numLarge0 <= largeItem1.Length && |Ranks(t, largeItem1[..numLarge0])| <= freqItemP.Length == indexList.Length
    requires freqItemP != indexList && largeItem1 != freqItemP && largeItem1 != indexList
    modifies freqItemP, indexList
    ensures 0 <= count <= |t| && count <= freqItemP.Length
    ensures Projected(t, largeItem1[..numLarge0], freqItemP[..count], indexList[..count])
  {
    ghost var large := largeItem1[..numLarge0];
    count := Project(t, largeItem1, numLarge0, freqItemP, indexList);
    ghost var r0, p0 := indexList[..], freqItemP[..];
    QSortA(indexList, freqItemP, 0, count - 1, count);
    SortedProjection(t, large, r0, p0, indexList[..], freqItemP[..], count);
  }

  /** The tree is a well-formed FP-tree over the frequent items `large` whose log is L. */
  ghost predicate Grown(tree: FPTree, large: seq<int>, L: seq<seq<int>>)
    reads tree, tree.header
  {
    tree.rankItem == large && tree.Valid() && WellFormed(tree.State(), large) && Logged(tree.State(), L) && PathSums(tree.nodes)
  }

  /**
   * One round of buildTree's loop: the sorted projection of transaction t
   * is inserted from the root with count 1, and the tree stays a
   * well-formed FP-tree whose log gains that projection.
   */
  method AddTransaction(tree: FPTree, t: seq<int>, largeItem1: array<int>, numLarge0: int,
                        freqItemP: array<int>, indexList: array<int>, ghost L: seq<seq<int>>)
    returns (ghost P: seq<int>, ghost R: seq<int>)
    requires 0 <= numLarge0 <= largeItem1.Length && |Ranks(t, largeItem1[..numLarge0])| <= freqItemP.Length == indexList.Length
    requires freqItemP != indexList && largeItem1 != freqItemP && largeItem1 != indexList
    requires tree.header != freqItemP && tree.header != indexList && tree.header != largeItem1
    requires tree.rankItem == largeItem1[..numLarge0]
    requires tree.Valid() && WellFormed(tree.State(), tree.rankItem) && Logged(tree.State(), L) && PathSums(tree.nodes)
    modifies tree`nodes, tree.header, freqItemP, indexList
    ensures tree.Valid() && WellFormed(tree.State(), tree.rankItem)
    ensures Logged(tree.State(), L + [P]) && PathSums(tree.nodes)
    ensures Projected(t, tree.rankItem, P, R)
  {
    ghost var large := tree.rankItem;
    ghost var a := tree.State();
    var count := SortedProjectionOf(t, largeItem1, numLarge0, freqItemP, indexList);
    P, R := freqItemP[..count], indexList[..count];
    ProjectedRanked(t, large, P, R);
    assert tree.State() == a;
    InsertLogged(a, large, L, P, R);
    var path := 0;
    path := tree.InsertTree(freqItemP[..count], indexList[..count], 1, 0, 0, path);
  }

  /**
   * buildTree: starting from a root and an empty header table, inserts the
   * sorted projection of every transaction with count 1.  The result is a
   * well-formed FP-tree whose node counts are the number of transactions
   * passing through them, L logging the sorted projections.
   */
  method BuildTree(db: seq<seq<int>>, largeItem1: array<int>, numLarge0: int, numItem: nat)
    returns (tree: FPTree, ghost L: seq<seq<int>>, ghost Rs: seq<seq<int>>)
    requires 0 <= numLarge0 <= largeItem1.Length
    requires forall k :: 0 <= k < numLarge0 ==> largeItem1[k] >= 0
    requires forall k, l :: 0 <= k < l < numLarge0 ==> largeItem1[k] != largeItem1[l]
    requires forall j :: 0 <= j < |db| ==> |Ranks(db[j], largeItem1[..numLarge0])| <= numItem
    ensures fresh(tree) && fresh(tree.header) && tree.rankItem == largeItem1[..numLarge0]
    ensures tree.Valid() && WellFormed(tree.State(), tree.rankItem)
    ensures Logged(tree.State(), L) && PathSums(tree.nodes)
    ensures AllProjected(db, tree.rankItem, L, Rs)
    ensures tree.totalLeafNode == 0 && tree.branchI == 0 && tree.branchJ == 0 && tree.emitted == []
  {
    ghost var large := largeItem1[..numLarge0];
    tree := new FPTree(largeItem1[..numLarge0]);
    var freqItemP := new int[numItem];
    var indexList := new int[numItem];
    L, Rs := [], [];
    for i := 0 to |db|
      invariant fresh(tree.header) && tree.header != freqItemP && tree.header != indexList
      invariant Grown(tree, large, L)
      invariant AllProjected(db[..i], large, L, Rs)
      invariant tree.totalLeafNode == 0 && tree.branchI == 0 && tree.branchJ == 0 && tree.emitted == []
    {
      ghost var P, R := AddTransaction(tree, db[i], largeItem1, numLarge0, freqItemP, indexList, L);
      AllProjectedStep(db, i, large, L, Rs, P, R);
      L, Rs := L + [P], Rs + [R];
    }
    assert db[..|db|] == db;
  }

  /** An item that occurs somewhere in a transaction. */
  lemma {:induction false} CountInPositive(t: seq<int>, x: int)
    requires CountIn(t, x) > 0
    ensures x in t
  {
    if t[|t| - 1] != x {
      CountInPositive(t[..|t| - 1], x);
    }
  }

  /** An item with positive support occurs in some transaction. */
  lemma {:induction false} SupportPositive(db: seq<seq<int>>, x: int) returns (j: int)
    requires Support(db, x) > 0
    ensures 0 <= j < |db| && x in db[j]
  {
    if CountIn(db[|db| - 1], x) > 0 {
      CountInPositive(db[|db| - 1], x);
      j := |db| - 1;
    } else {
      j := SupportPositive(db[..|db| - 1], x);
    }
  }

  /**
   * Once a frequent item occurs in some transaction, the tree buildTree
   * leaves has a node below the root, so the root has a child and
   * test_tree(root) walks down from it rather than taking the root for a leaf.
   */
  lemma RootHasChild(db: seq<seq<int>>, large: seq<int>, L: seq<seq<int>>, Rs: seq<seq<int>>, a: Tree)
    requires WellFormed(a, large) && Logged(a, L) && AllProjected(db, large, L, Rs)
    requires large != [] && Support(db, large[0]) > 0
    ensures a.nodes[0].children != []
  {
    var j := SupportPositive(db, large[0]);
    ProjectedRanked(db[j], large, L[j], Rs[j]);
    assert large[0] in L[j];
    var m :| 0 <= m < |a.nodes| && Path(a.nodes, m) == L[j];
    assert m != 0;
    assert a.nodes[1].parent == 0;
    assert 1 in a.nodes[a.nodes[1].parent].children;
  }

  /**
   * What main leaves behind once some item is frequent: `built` is the
   * tree as buildTree leaves it, a well-formed FP-tree over the frequent
   * items logging a sorted projection of every transaction, and the walk
   * has counted the root's numPath leaves and emitted, leaf by leaf, the
   * as-written combine_string list of each branch.
   */
  ghost predicate Mined(db: seq<seq<int>>, tree: FPTree, built: Tree, L: seq<seq<int>>, Rs: seq<seq<int>>)
    reads tree
  {
    && WellFormed(built, tree.rankItem) && Logged(built, L) && PathSums(built.nodes)
    && AllProjected(db, tree.rankItem, L, Rs)
    && tree.totalLeafNode == built.nodes[0].numPath == |Leaves(built.nodes, 0)|
    && tree.emitted == Combos(built.nodes, Leaves(built.nodes, 0))
  }

  /** Transactions with at most n frequent entries have projections of at most n entries. */
  lemma ProjectionsFit(db: seq<seq<int>>, large: seq<int>, S: set<int>, n: int)
    requires forall x :: x in large <==> x in S
    requires forall j :: 0 <= j < |db| ==> CountAmong(db[j], S) <= n
    ensures forall j :: 0 <= j < |db| ==> |Ranks(db[j], large)| <= n
  {
    forall j | 0 <= j < |db| ensures |Ranks(db[j], large)| <= n {
      RanksCount(db[j], large, S);
    }
  }

  /** The branch of main taken when some item is frequent: buildTree, then test_tree from the root. */
  method BuildAndWalk(db: seq<seq<int>>, largeItem1: array<int>, numLarge0: int, numItem: nat)
    returns (tree: FPTree, ghost built: Tree, ghost L: seq<seq<int>>, ghost Rs: seq<seq<int>>)
    requires 0 < numLarge0 <= largeItem1.Length && Support(db, largeItem1[0]) > 0
    requires forall k :: 0 <= k < numLarge0 ==> largeItem1[k] >= 0
    requires forall k, l :: 0 <= k < l < numLarge0 ==> largeItem1[k] != largeItem1[l]
    requires forall j :: 0 <= j < |db| ==> |Ranks(db[j], largeItem1[..numLarge0])| <= numItem
    ensures fresh(tree) && tree.rankItem == largeItem1[..numLarge0] && Mined(db, tree, built, L, Rs)
  {
    tree, L, Rs := BuildTree(db, largeItem1, numLarge0, numItem);
    built := tree.State();
    RootHasChild(db, tree.rankItem, L, Rs, built);
    LeafCount(built.nodes, 0);
    tree.TestTree(0);
  }

  /**
   * main, after reading its parameters: pass1, and when some item is
   * frequent, buildTree followed by test_tree from the root.  The tree is
   * null exactly when no item is frequent; otherwise its frequent-item list
   * holds the frequent items and Mined says what the build and the walk did.
   */
  method Run(db: seq<seq<int>>, numItem: nat, expectedK: int, threshold: int)
    returns (tree: FPTree?, ghost built: Tree, ghost L: seq<seq<int>>, ghost Rs: seq<seq<int>>)
    requires ItemsBelow(db, numItem) && threshold >= 1
    requires forall j :: 0 <= j < |db| ==> CountAmong(db[j], FrequentItems(db, numItem, threshold)) <= numItem
    ensures (tree == null) == (|FrequentItems(db, numItem, threshold)| == 0)
    ensures tree != null ==>
      && |tree.rankItem| == |FrequentItems(db, numItem, threshold)|
      && (forall x :: x in tree.rankItem <==> x in FrequentItems(db, numItem, threshold))
      && Mined(db, tree, built, L, Rs)
  {
    var support1, largeItem1, realK, numLarge := Pass1(db, numItem, expectedK, threshold);
    tree, built, L, Rs := null, Tree([], []), [], [];
    if numLarge[0] > 0 {
      assert Support(db, largeItem1[0]) > 0;
      ProjectionsFit(db, largeItem1[..numLarge[0]], FrequentItems(db, numItem, threshold), numItem);
      tree, built, L, Rs := BuildAndWalk(db, largeItem1, numLarge[0], numItem);
    }
  }
}
