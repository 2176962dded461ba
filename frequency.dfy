/**
 * The frequency pass of fpt.cpp (pass1): count every item over the database,
 * work out the largest itemset size worth mining (realK), sort the items by
 * descending support and find how many of them reach the support threshold.
 * The data file is replaced by the sequence of its transactions.
 */
module FrequencyPass {
  import opened Sort

  /** Occurrences of item x in one transaction. */
  function CountIn(t: seq<int>, x: int): nat
  {
    if t == [] then 0 else CountIn(t[..|t| - 1], x) + (if t[|t| - 1] == x then 1 else 0)
  }

  /** The support of item x: its occurrences over every transaction of the database. */
  function Support(db: seq<seq<int>>, x: int): nat
  {
    if db == [] then 0 else Support(db[..|db| - 1], x) + CountIn(db[|db| - 1], x)
  }

  /** The length of the longest transaction (0 for an empty database). */
  function MaxSize(db: seq<seq<int>>): nat
  {
    if db == [] then 0
    else
      var m := MaxSize(db[..|db| - 1]);
      if |db[|db| - 1]| > m then |db[|db| - 1]| else m
  }

  /** MaxSize is the length of a longest transaction. */
  lemma {:induction false} MaxSizeIsMax(db: seq<seq<int>>)
    ensures forall i :: 0 <= i < |db| ==> |db[i]| <= MaxSize(db)
    ensures db == [] ==> MaxSize(db) == 0
    ensures db != [] ==> exists i :: 0 <= i < |db| && |db[i]| == MaxSize(db)
  {
    if db != [] {
      var front := db[..|db| - 1];
      MaxSizeIsMax(front);
      forall i | 0 <= i < |db| ensures |db[i]| <= MaxSize(db) {
        if i < |db| - 1 {
          assert db[i] == front[i];
        }
      }
      if front != [] && MaxSize(db) == MaxSize(front) {
        var i :| 0 <= i < |front| && |front[i]| == MaxSize(front);
        assert db[i] == front[i];
      }
    }
  }

  /**
   * The upper limit of itemset size to mine: the user's cap when it is
   * positive and no larger than the longest transaction, that length otherwise.
   */
  function RealK(expectedK: int, maxSize: nat): (k: nat)
    ensures k <= maxSize
    ensures 0 < expectedK <= maxSize ==> k == expectedK
    ensures (expectedK <= 0 || maxSize < expectedK) ==> k == maxSize
  {
    if maxSize < expectedK || expectedK <= 0 then maxSize else expectedK
  }

  /** The number of entries the source allocates for numLarge: realK. */
  function NumLargeAllocated(db: seq<seq<int>>, expectedK: int): nat
  {
    RealK(expectedK, MaxSize(db))
  }

  /**
   * A database whose only transaction is empty makes realK zero, so the
   * source's numLarge has no entry 0, which pass1 nevertheless writes.
   */
  lemma NumLargeOverflow()
    ensures NumLargeAllocated([[]], 3) == 0
  {
    var db: seq<seq<int>> := [[]];
    assert db[..0] == [];
  }

  /** The corrected size of numLarge: realK entries, but never fewer than one. */
  function NumLargeSize(realK: nat): (n: nat)
    ensures n >= 1 && n >= realK
    ensures realK > 0 ==> n == realK
  {
    if realK == 0 then 1 else realK
  }

  /** 0, 1, ..., n-1: the initial largeItem1 table. */
  function Iota(n: nat): (s: seq<int>)
    ensures |s| == n && forall k :: 0 <= k < n ==> s[k] == k
  {
    seq(n, k => k)
  }

  /** The initial support1 table: the support of each item, by item id. */
  ghost function SupportTable(db: seq<seq<int>>, n: nat): (s: seq<int>)
    ensures |s| == n && forall k :: 0 <= k < n ==> s[k] == Support(db, k)
  {
    seq(n, k => Support(db, k))
  }

  /** Every item of every transaction is an item id below numItem. */
  ghost predicate ItemsBelow(db: seq<seq<int>>, numItem: int)
  {
    forall i, j :: 0 <= i < |db| && 0 <= j < |db[i]| ==> 0 <= db[i][j] < numItem
  }

  /** Where distinct values are held, a pair occurs at most once. */
  lemma {:induction false} CountDistinctAtMostOne(key: seq<int>, val: seq<int>, low: int, high: int,
                                                  x: int, y: int)
    requires |key| == |val| && 0 <= low <= high + 1 <= |key|
    requires forall a, b :: low <= a < b <= high ==> val[a] != val[b]
    decreases high - low
    ensures Count(key, val, low, high, x, y) <= 1
  {
    if low <= high {
      CountDistinctAtMostOne(key, val, low, high - 1, x, y);
      if key[high] == x && val[high] == y && Count(key, val, low, high - 1, x, y) > 0 {
        CountedAt(key, val, low, high - 1, x, y);
      }
    }
  }

  /** A pair standing at two positions of a range is counted at least twice. */
  lemma {:induction false} CountTwice(key: seq<int>, val: seq<int>, low: int, high: int, a: int, b: int)
    requires |key| == |val| && 0 <= low <= a < b <= high < |key|
    requires key[a] == key[b] && val[a] == val[b]
    decreases high - low
    ensures Count(key, val, low, high, key[a], val[a]) >= 2
  {
    if b < high {
      CountTwice(key, val, low, high - 1, a, b);
    } else {
      CountsPosition(key, val, low, high - 1, a);
    }
  }

  /**
   * A rearrangement of the table (support of item i, i) for i < n is a
   * table of distinct item ids below n, each paired with its own support,
   * holding every item id below n.
   */
  lemma RearrangedSupportTable(db: seq<seq<int>>, n: nat, support: seq<int>, items: seq<int>)
    requires |support| == |items| == n
    requires SamePairs(SupportTable(db, n), Iota(n), support, items, 0, n - 1)
    ensures forall k :: 0 <= k < n ==> 0 <= items[k] < n && support[k] == Support(db, items[k])
    ensures forall a, b :: 0 <= a < b < n ==> items[a] != items[b]
    ensures forall x :: 0 <= x < n ==> x in items
  {
    var table, ids := SupportTable(db, n), Iota(n);
    forall k | 0 <= k < n
      ensures 0 <= items[k] < n && support[k] == Support(db, items[k])
    {
      SamePairsSource(table, ids, support, items, 0, n - 1, k);
    }
    forall a, b | 0 <= a < b < n
      ensures items[a] != items[b]
    {
      if items[a] == items[b] {
        CountTwice(support, items, 0, n - 1, a, b);
        CountDistinctAtMostOne(table, ids, 0, n - 1, support[a], items[a]);
      }
    }
    forall x | 0 <= x < n
      ensures x in items
    {
      CountsPosition(table, ids, 0, n - 1, x);
      CountedAt(support, items, 0, n - 1, table[x], x);
    }
  }

  /**
   * The state pass1 leaves its tables in: the supports in descending order,
   * each beside its own item, the items a rearrangement of 0..numItem-1.
   */
  ghost predicate SortedSupportTable(db: seq<seq<int>>, numItem: nat, support: seq<int>, items: seq<int>)
  {
    && |support| == |items| == numItem
    && SamePairs(SupportTable(db, numItem), Iota(numItem), support, items, 0, numItem - 1)
    && (forall i, j :: 0 <= i < j < numItem ==> support[i] >= support[j])
    && (forall k :: 0 <= k < numItem ==> 0 <= items[k] < numItem && support[k] == Support(db, items[k]))
    && (forall a, b :: 0 <= a < b < numItem ==> items[a] != items[b])
  }

  /** n is the length of the prefix of support whose entries reach the threshold. */
  predicate FrequentPrefix(support: seq<int>, threshold: int, n: int)
  {
    && 0 <= n <= |support|
    && (forall k :: 0 <= k < n ==> support[k] >= threshold)
    && (n < |support| ==> support[n] < threshold)
  }

  /** The frequent items: those whose support reaches the threshold. */
  ghost function FrequentItems(db: seq<seq<int>>, numItem: nat, threshold: int): set<int>
  {
    set x | 0 <= x < numItem && Support(db, x) >= threshold
  }

  /** The items a sequence holds at positions below n, when they are distinct, number n. */
  lemma {:induction false} DistinctPrefixCard(items: seq<int>, n: nat)
    requires n <= |items|
    requires forall a, b :: 0 <= a < b < |items| ==> items[a] != items[b]
    ensures |set k | 0 <= k < n :: items[k]| == n
  {
    if n > 0 {
      DistinctPrefixCard(items, n - 1);
      var front := set k | 0 <= k < n - 1 :: items[k];
      assert (set k | 0 <= k < n :: items[k]) == front + {items[n - 1]};
      assert items[n - 1] !in front;
    }
  }

  /**
   * Because the table is sorted by descending support and is a rearrangement
   * of all item ids, the length of its prefix of supports at or above the
   * threshold is the number of frequent items.
   */
  lemma NumLargeCountsFrequentItems(db: seq<seq<int>>, numItem: nat, threshold: int,
                                    support: seq<int>, items: seq<int>, numLarge0: nat)
    requires |support| == |items| == numItem && numLarge0 <= numItem
    requires SamePairs(SupportTable(db, numItem), Iota(numItem), support, items, 0, numItem - 1)
    requires forall a, b :: 0 <= a < b < numItem ==> support[a] >= support[b]
    requires forall k :: 0 <= k < numLarge0 ==> support[k] >= threshold
    requires numLarge0 < numItem ==> support[numLarge0] < threshold
    ensures numLarge0 == |FrequentItems(db, numItem, threshold)|
    ensures forall x :: x in items[..numLarge0] <==> x in FrequentItems(db, numItem, threshold)
  {
    RearrangedSupportTable(db, numItem, support, items);
    var prefix := set k | 0 <= k < numLarge0 :: items[k];
    forall x | x in FrequentItems(db, numItem, threshold)
      ensures x in prefix
    {
      assert x in items;
      var k :| 0 <= k < numItem && items[k] == x;
    }
    assert prefix == FrequentItems(db, numItem, threshold);
    DistinctPrefixCard(items, numLarge0);
    forall x ensures x in items[..numLarge0] <==> x in prefix {
      if x in items[..numLarge0] {
        var k :| 0 <= k < numLarge0 && items[..numLarge0][k] == x;
      }
    }
  }

  /**
   * The first half of pass1: the support table indexed by item id, the
   * identity item table and the length of the longest transaction.
   */
  method ScanDatabase(db: seq<seq<int>>, numItem: nat)
    returns (support1: array<int>, largeItem1: array<int>, maxSize: nat)
    requires ItemsBelow(db, numItem)
    ensures fresh(support1) && fresh(largeItem1) && support1 != largeItem1
    ensures support1[..] == SupportTable(db, numItem)
    ensures largeItem1[..] == Iota(numItem)
    ensures maxSize == MaxSize(db)
  {
    support1 := new int[numItem];
    largeItem1 := new int[numItem];
    for i := 0 to numItem
      invariant forall k :: 0 <= k < i ==> support1[k] == 0 && largeItem1[k] == k
    {
      support1[i] := 0;
      largeItem1[i] := i;
    }

    // scan the database, counting each item and noting the longest transaction
    maxSize := 0;
    for i := 0 to |db|
      invariant maxSize == MaxSize(db[..i])
      invariant forall x :: 0 <= x < numItem ==> support1[x] == Support(db[..i], x)
      invariant forall k :: 0 <= k < numItem ==> largeItem1[k] == k
    {
      var transSize := |db[i]|;
      if transSize > maxSize {
        maxSize := transSize;
      }
      for j := 0 to transSize
        invariant forall x :: 0 <= x < numItem ==>
                    support1[x] == Support(db[..i], x) + CountIn(db[i][..j], x)
        invariant forall k :: 0 <= k < numItem ==> largeItem1[k] == k
      {
        var item := db[i][j];
        support1[item] := support1[item] + 1;
        assert db[i][..j + 1][..j] == db[i][..j];
      }
      assert db[i][..transSize] == db[i];
      assert db[..i + 1][..i] == db[..i];
    }
    assert db[..|db|] == db;
    assert forall x :: 0 <= x < numItem ==> support1[..][x] == SupportTable(db, numItem)[x];
    assert forall x :: 0 <= x < numItem ==> largeItem1[..][x] == Iota(numItem)[x];
  }

  /** The sort step of pass1: q_sortD over the whole table. */
  method SortBySupport(ghost db: seq<seq<int>>, support1: array<int>, largeItem1: array<int>)
    requires support1 != largeItem1
    requires support1[..] == SupportTable(db, support1.Length)
    requires largeItem1[..] == Iota(support1.Length)
    modifies support1, largeItem1
    ensures SortedSupportTable(db, support1.Length, support1[..], largeItem1[..])
  {
    var numItem := support1.Length;
    QSortD(support1, largeItem1, 0, numItem - 1, numItem);
    RearrangedSupportTable(db, numItem, support1[..], largeItem1[..]);
  }

  /**
   * The closing loop of pass1: the length of the prefix of a table sorted
   * by descending support whose supports reach the threshold.
   */
  method CountAtThreshold(support1: array<int>, threshold: int) returns (n: nat)
    ensures FrequentPrefix(support1[..], threshold, n)
  {
    n := 0;
    while n < support1.Length && support1[n] >= threshold
      invariant n <= support1.Length
      invariant forall k :: 0 <= k < n ==> support1[k] >= threshold
    {
      n := n + 1;
    }
  }

  /**
   * pass1: returns the sorted support table support1, the item table
   * largeItem1 sorted along with it, realK, and the numLarge table whose
   * entry 0 is the number of frequent items.
   */
  method Pass1(db: seq<seq<int>>, numItem: nat, expectedK: int, threshold: int)
    returns (support1: array<int>, largeItem1: array<int>, realK: nat, numLarge: array<int>)
    requires ItemsBelow(db, numItem)
    ensures fresh(support1) && fresh(largeItem1) && fresh(numLarge)
    ensures support1 != largeItem1 && support1.Length == largeItem1.Length == numItem
    ensures realK == RealK(expectedK, MaxSize(db))
    ensures numLarge.Length == NumLargeSize(realK)
    ensures SortedSupportTable(db, numItem, support1[..], largeItem1[..])
    ensures FrequentPrefix(support1[..], threshold, numLarge[0])
    ensures numLarge[0] == |FrequentItems(db, numItem, threshold)|
    ensures forall x :: x in largeItem1[..numLarge[0]] <==> x in FrequentItems(db, numItem, threshold)
    ensures forall k :: 1 <= k < numLarge.Length ==> numLarge[k] == 0
  {
    var maxSize;
    support1, largeItem1, maxSize := ScanDatabase(db, numItem);

    var k := expectedK;
    if maxSize < expectedK || expectedK <= 0 {
      k := maxSize;
    }
    realK := k;
    numLarge := new int[NumLargeSize(realK)];
    for i := 0 to numLarge.Length
      modifies numLarge
      invariant forall k :: 0 <= k < i ==> numLarge[k] == 0
    {
      numLarge[i] := 0;
    }

    SortBySupport(db, support1, largeItem1);
    var large := CountAtThreshold(support1, threshold);
    NumLargeCountsFrequentItems(db, numItem, threshold, support1[..], largeItem1[..], large);
    numLarge[0] := large;
  }
}
