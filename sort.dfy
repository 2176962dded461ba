/**
 * The two in-place quicksorts of fpt.cpp, q_sortD and q_sortA, and their
 * helper swap.  Both sort a key array and drag a second array along with it,
 * so every (key, value) pair stays together.  They are the same Hoare-style
 * partition with the comparison turned around, so the model writes the
 * algorithm once, with a direction flag, and gives each source function a
 * thin entry point.
 */
module Sort {

  /** x strictly goes before y: larger first when descending, smaller first otherwise. */
  predicate Precedes(x: int, y: int, descending: bool)
  {
    if descending then x > y else x < y
  }

  /** key[low..high] (inclusive bounds, as in the source) is in the requested order. */
  ghost predicate SortedRange(key: seq<int>, low: int, high: int, descending: bool)
    requires 0 <= low && high < |key|
  {
    forall i, j :: low <= i < j <= high ==> !Precedes(key[j], key[i], descending)
  }

  /** How many positions of low..high (inclusive) hold the pair (x, y). */
  ghost function Count(key: seq<int>, val: seq<int>, low: int, high: int, x: int, y: int): nat
    requires |key| == |val| && 0 <= low <= high + 1 <= |key|
    decreases high - low
  {
    if high < low then 0
    else Count(key, val, low, high - 1, x, y) + (if key[high] == x && val[high] == y then 1 else 0)
  }

  /**
   * The pairs of positions low..high of (k1, v1) are a rearrangement of those
   * of (k0, v0): every (key, value) pair occurs equally often in both.
   */
  ghost predicate SamePairs(k0: seq<int>, v0: seq<int>, k1: seq<int>, v1: seq<int>, low: int, high: int)
    requires |k0| == |v0| && |k1| == |v1| && 0 <= low <= high + 1 <= |k0| && high < |k1|
  {
    forall x, y :: Count(k1, v1, low, high, x, y) == Count(k0, v0, low, high, x, y)
  }

  /** Which side of the pivot p a key may stand on after partitioning. */
  predicate OnSide(x: int, p: int, descending: bool, left: bool)
  {
    if left then !Precedes(p, x, descending) else !Precedes(x, p, descending)
  }

  /** Only the positions of a range matter to its counts. */
  lemma {:induction false} CountFrame(k0: seq<int>, v0: seq<int>, k1: seq<int>, v1: seq<int>,
                                      low: int, high: int, x: int, y: int)
    requires |k0| == |v0| && |k1| == |v1| && 0 <= low <= high + 1 <= |k0| && high < |k1|
    requires forall k :: low <= k <= high ==> k1[k] == k0[k] && v1[k] == v0[k]
    decreases high - low
    ensures Count(k1, v1, low, high, x, y) == Count(k0, v0, low, high, x, y)
  {
    if low <= high {
      CountFrame(k0, v0, k1, v1, low, high - 1, x, y);
    }
  }

  /** Sequences that agree on a range have the same pairs there. */
  lemma SamePairsFrame(k0: seq<int>, v0: seq<int>, k1: seq<int>, v1: seq<int>, low: int, high: int)
    requires |k0| == |v0| && |k1| == |v1| && 0 <= low <= high + 1 <= |k0| && high < |k1|
    requires forall k :: low <= k <= high ==> k1[k] == k0[k] && v1[k] == v0[k]
    ensures SamePairs(k0, v0, k1, v1, low, high)
  {
    forall x, y ensures Count(k1, v1, low, high, x, y) == Count(k0, v0, low, high, x, y) {
      CountFrame(k0, v0, k1, v1, low, high, x, y);
    }
  }

  /** Overwriting one position replaces that position's pair and no other. */
  lemma {:induction false} CountUpdate(key: seq<int>, val: seq<int>, low: int, high: int,
                                       i: int, a: int, b: int, x: int, y: int)
    requires |key| == |val| && 0 <= low <= i <= high < |key|
    decreases high - low
    ensures Count(key[i := a], val[i := b], low, high, x, y)
         == Count(key, val, low, high, x, y)
            - (if key[i] == x && val[i] == y then 1 else 0)
            + (if a == x && b == y then 1 else 0)
  {
    if i < high {
      CountUpdate(key, val, low, high - 1, i, a, b, x, y);
    } else {
      CountFrame(key, val, key[i := a], val[i := b], low, high - 1, x, y);
    }
  }

  /** Swapping two positions inside a range keeps the range's pairs. */
  lemma SwapKeepsPairs(k0: seq<int>, v0: seq<int>, k1: seq<int>, v1: seq<int>,
                       low: int, high: int, s: int, t: int)
    requires |k0| == |v0| == |k1| == |v1| && 0 <= low <= s <= high < |k0| && low <= t <= high
    requires k1[s] == k0[t] && k1[t] == k0[s] && v1[s] == v0[t] && v1[t] == v0[s]
    requires forall k :: 0 <= k < |k0| && k != s && k != t ==> k1[k] == k0[k] && v1[k] == v0[k]
    ensures SamePairs(k0, v0, k1, v1, low, high)
  {
    if s == t {
      SamePairsFrame(k0, v0, k1, v1, low, high);
    } else {
      var km, vm := k0[s := k0[t]], v0[s := v0[t]];
      forall x, y ensures Count(k1, v1, low, high, x, y) == Count(k0, v0, low, high, x, y) {
        CountUpdate(k0, v0, low, high, s, k0[t], v0[t], x, y);
        CountUpdate(km, vm, low, high, t, k0[s], v0[s], x, y);
        CountFrame(km[t := k0[s]], vm[t := v0[s]], k1, v1, low, high, x, y);
      }
    }
  }

  /** Counts over low..high add up from low..mid-1 and mid..high. */
  lemma {:induction false} CountSplit(key: seq<int>, val: seq<int>, low: int, mid: int, high: int,
                                      x: int, y: int)
    requires |key| == |val| && 0 <= low <= mid <= high + 1 <= |key|
    decreases high - mid
    ensures Count(key, val, low, high, x, y)
         == Count(key, val, low, mid - 1, x, y) + Count(key, val, mid, high, x, y)
  {
    if mid <= high {
      CountSplit(key, val, low, mid, high - 1, x, y);
    }
  }

  /**
   * Rearranging the pairs of two adjacent ranges separately rearranges the
   * pairs of the whole.
   */
  lemma SamePairsJoin(k0: seq<int>, v0: seq<int>, k1: seq<int>, v1: seq<int>,
                      low: int, mid: int, high: int)
    requires |k0| == |v0| && |k1| == |v1| && 0 <= low <= mid <= high + 1 <= |k0| && high < |k1|
    requires SamePairs(k0, v0, k1, v1, low, mid - 1) && SamePairs(k0, v0, k1, v1, mid, high)
    ensures SamePairs(k0, v0, k1, v1, low, high)
  {
    forall x, y ensures Count(k1, v1, low, high, x, y) == Count(k0, v0, low, high, x, y) {
      CountSplit(k0, v0, low, mid, high, x, y);
      CountSplit(k1, v1, low, mid, high, x, y);
    }
  }

  lemma SamePairsTrans(k0: seq<int>, v0: seq<int>, k1: seq<int>, v1: seq<int>,
                       k2: seq<int>, v2: seq<int>, low: int, high: int)
    requires |k0| == |v0| && |k1| == |v1| && |k2| == |v2|
    requires 0 <= low <= high + 1 <= |k0| && high < |k1| && high < |k2|
    requires SamePairs(k0, v0, k1, v1, low, high) && SamePairs(k1, v1, k2, v2, low, high)
    ensures SamePairs(k0, v0, k2, v2, low, high)
  {
  }

  /** A pair counted in a range stands at some position of that range. */
  lemma {:induction false} CountedAt(key: seq<int>, val: seq<int>, low: int, high: int, x: int, y: int)
    requires |key| == |val| && 0 <= low <= high + 1 <= |key|
    requires Count(key, val, low, high, x, y) > 0
    decreases high - low
    ensures exists k :: low <= k <= high && key[k] == x && val[k] == y
  {
    if !(key[high] == x && val[high] == y) {
      CountedAt(key, val, low, high - 1, x, y);
    }
  }

  /** The pair at each position of a range is counted there. */
  lemma {:induction false} CountsPosition(key: seq<int>, val: seq<int>, low: int, high: int, k: int)
    requires |key| == |val| && 0 <= low <= k <= high < |key|
    decreases high - low
    ensures Count(key, val, low, high, key[k], val[k]) > 0
  {
    if k < high {
      CountsPosition(key, val, low, high - 1, k);
    }
  }

  /**
   * Every pair of (k1, v1) in low..high is a pair of (k0, v0) in low..high
   * when the two ranges hold the same pairs.
   */
  lemma SamePairsSource(k0: seq<int>, v0: seq<int>, k1: seq<int>, v1: seq<int>,
                        low: int, high: int, k: int)
    requires |k0| == |v0| == |k1| == |v1| && 0 <= low <= k <= high < |k0|
    requires SamePairs(k0, v0, k1, v1, low, high)
    ensures exists m :: low <= m <= high && k0[m] == k1[k] && v0[m] == v1[k]
  {
    CountsPosition(k1, v1, low, high, k);
    CountedAt(k0, v0, low, high, k1[k], v1[k]);
  }

  /**
   * Rearranging the pairs of a range cannot move a key across the pivot:
   * if every key of the range was on one side of p, every key still is.
   */
  lemma PairsKeepSide(k0: seq<int>, v0: seq<int>, k1: seq<int>, v1: seq<int>,
                      low: int, high: int, p: int, descending: bool, left: bool)
    requires |k0| == |v0| == |k1| == |v1| && 0 <= low <= high + 1 <= |k0|
    requires SamePairs(k0, v0, k1, v1, low, high)
    requires forall k :: low <= k <= high ==> OnSide(k0[k], p, descending, left)
    ensures forall k :: low <= k <= high ==> OnSide(k1[k], p, descending, left)
  {
    forall k | low <= k <= high
      ensures OnSide(k1[k], p, descending, left)
    {
      SamePairsSource(k0, v0, k1, v1, low, high, k);
    }
  }

  /** swap (fpt.cpp): exchange positions x and i of both arrays. */
  method Swap(key: array<int>, val: array<int>, x: int, i: int)
    requires key != val && key.Length == val.Length
    requires 0 <= x < key.Length && 0 <= i < key.Length
    modifies key, val
    ensures key[x] == old(key[i]) && key[i] == old(key[x])
    ensures val[x] == old(val[i]) && val[i] == old(val[x])
    ensures forall k :: 0 <= k < key.Length && k != x && k != i ==>
              key[k] == old(key[k]) && val[k] == old(val[k])
  {
    var temp := key[x];
    key[x] := key[i];
    key[i] := temp;
    temp := val[x];
    val[x] := val[i];
    val[i] := temp;
  }

  /**
   * The left scan of q_sortD / q_sortA: starting after position i, step
   * forward while the key goes strictly before the pivot's key; the scan is
   * bounded by size, not by the range's upper end.
   */
  method ScanFromHead(key: array<int>, pivot: int, i: int, size: int, descending: bool)
    returns (next: int)
    requires 0 <= pivot <= i < size <= key.Length
    ensures i < next <= size
    ensures forall k :: i < k < next ==> Precedes(key[k], key[pivot], descending)
    ensures next < size ==> !Precedes(key[next], key[pivot], descending)
  {
    next := i + 1;
    while next < size && Precedes(key[next], key[pivot], descending)
      invariant i < next <= size
      invariant forall k :: i < k < next ==> Precedes(key[k], key[pivot], descending)
      decreases size - next
    {
      next := next + 1;
    }
  }

  /**
   * The right scan of q_sortD / q_sortA: starting before position j, step
   * backward while the key goes strictly after the pivot's key.  The source
   * also stops at index 0; the pivot's own key stops the scan first.
   */
  method ScanFromTail(key: array<int>, pivot: int, j: int, descending: bool)
    returns (next: int)
    requires 0 <= pivot < j <= key.Length
    ensures pivot <= next < j
    ensures forall k :: next < k < j ==> Precedes(key[pivot], key[k], descending)
    ensures !Precedes(key[pivot], key[next], descending)
  {
    next := j;
    var scanning := true;
    while scanning
      invariant pivot <= next <= j
      invariant scanning ==> pivot < next
      invariant scanning && next < j ==> Precedes(key[pivot], key[next], descending)
      invariant !scanning ==> next < j && !Precedes(key[pivot], key[next], descending)
      invariant forall k :: next < k < j ==> Precedes(key[pivot], key[k], descending)
      decreases next
    {
      scanning := next > 0;
      next := next - 1;
      if scanning {
        scanning := Precedes(key[pivot], key[next], descending);
      }
    }
  }

  /**
   * The do-while loop of q_sortD / q_sortA: the first element of the range is
   * the pivot; the two scans find a key on the wrong side from each end, the
   * two offending pairs are swapped while the scans have not crossed, and
   * finally the pivot is swapped into the position where the right scan
   * stopped, which is returned.
   */
  method Partition(key: array<int>, val: array<int>, low: int, high: int, size: int,
                   descending: bool) returns (mid: int)
    requires key != val && key.Length == val.Length
    requires 0 <= low < high < size <= key.Length
    modifies key, val
    ensures low <= mid <= high
    ensures forall k :: 0 <= k < key.Length && (k < low || high < k) ==>
              key[k] == old(key[k]) && val[k] == old(val[k])
    ensures SamePairs(old(key[..]), old(val[..]), key[..], val[..], low, high)
    ensures forall k :: low <= k < mid ==> OnSide(key[k], key[mid], descending, true)
    ensures forall k :: mid < k <= high ==> OnSide(key[k], key[mid], descending, false)
    ensures key[mid] == old(key[low]) && val[mid] == old(val[low])
  {
    var pivot := low;
    ghost var p, pv := key[pivot], val[pivot];
    var i, j := low, high + 1;
    while i <= j
      invariant low <= i <= size && low <= j <= high + 1
      invariant i == low ==> j == high + 1
      invariant low < i ==> j <= high
      invariant key[pivot] == p && val[pivot] == pv
      invariant forall k :: 0 <= k < key.Length && (k < low || high < k) ==>
                  key[k] == old(key[k]) && val[k] == old(val[k])
      invariant SamePairs(old(key[..]), old(val[..]), key[..], val[..], low, high)
      invariant forall k :: low < k < i && k <= high ==> OnSide(key[k], p, descending, true)
      invariant low < i <= j ==> OnSide(key[i], p, descending, true)
      invariant forall k :: j < k <= high ==> OnSide(key[k], p, descending, false)
      invariant i <= j <= high ==> OnSide(key[j], p, descending, false)
      invariant j < i ==> OnSide(key[j], p, descending, true)
      decreases j - i
    {
      i := ScanFromHead(key, pivot, i, size, descending);
      j := ScanFromTail(key, pivot, j, descending);
      if i < j {
        ghost var k0, v0 := key[..], val[..];
        Swap(key, val, i, j);
        SwapKeepsPairs(k0, v0, key[..], val[..], low, high, i, j);
      }
    }
    ghost var k0, v0 := key[..], val[..];
    Swap(key, val, pivot, j);
    SwapKeepsPairs(k0, v0, key[..], val[..], low, high, pivot, j);
    mid := j;
  }

  /**
   * The recursion shared by q_sortD and q_sortA: a range with low >= high is
   * left alone; otherwise partition and sort both sides.  size bounds the left
   * scan only, exactly as the source's size argument does.
   */
  method QuickSort(key: array<int>, val: array<int>, low: int, high: int, size: int,
                   descending: bool)
    requires key != val && key.Length == val.Length
    requires 0 <= low <= high + 1 && high < size <= key.Length
    modifies key, val
    decreases high - low + 1
    ensures SortedRange(key[..], low, high, descending)
    ensures SamePairs(old(key[..]), old(val[..]), key[..], val[..], low, high)
    ensures forall k :: 0 <= k < key.Length && (k < low || high < k) ==>
              key[k] == old(key[k]) && val[k] == old(val[k])
  {
    if low >= high {
      return;
    }
    var mid := Partition(key, val, low, high, size, descending);
    ghost var k1, v1 := key[..], val[..];
    QuickSort(key, val, low, mid - 1, size, descending);
    ghost var k2, v2 := key[..], val[..];
    QuickSort(key, val, mid + 1, high, size, descending);
    ghost var k3, v3 := key[..], val[..];
    var p := k1[mid];

    // the pairs of the whole range survive both recursive calls
    ghost var k0, v0 := old(key[..]), old(val[..]);
    SamePairsFrame(k1, v1, k2, v2, mid, high);
    SamePairsJoin(k1, v1, k2, v2, low, mid, high);
    SamePairsFrame(k2, v2, k3, v3, low, mid);
    SamePairsJoin(k2, v2, k3, v3, low, mid + 1, high);
    SamePairsTrans(k0, v0, k1, v1, k2, v2, low, high);
    SamePairsTrans(k0, v0, k2, v2, k3, v3, low, high);

    // both sides stay on their side of the pivot, which itself does not move
    PairsKeepSide(k1, v1, k2, v2, low, mid - 1, p, descending, true);
    PairsKeepSide(k2, v2, k3, v3, mid + 1, high, p, descending, false);
    assert k3[mid] == p;
    forall a, b | low <= a < b <= high
      ensures !Precedes(k3[b], k3[a], descending)
    {
      if a < mid && mid < b {
        assert OnSide(k3[a], p, descending, true) && OnSide(k3[b], p, descending, false);
      }
    }
  }

  /** q_sortD: sort support[low..high] into non-increasing order, itemset alongside. */
  method QSortD(support: array<int>, itemset: array<int>, low: int, high: int, size: int)
    requires support != itemset && support.Length == itemset.Length
    requires 0 <= low <= high + 1 && high < size <= support.Length
    modifies support, itemset
    ensures forall i, j :: low <= i < j <= high ==> support[i] >= support[j]
    ensures SamePairs(old(support[..]), old(itemset[..]), support[..], itemset[..], low, high)
    ensures forall k :: 0 <= k < support.Length && (k < low || high < k) ==>
              support[k] == old(support[k]) && itemset[k] == old(itemset[k])
  {
    QuickSort(support, itemset, low, high, size, true);
    assert SortedRange(support[..], low, high, true);
  }

  /** q_sortA: sort indexList[low..high] into non-decreasing order, freqItemP alongside. */
  method QSortA(indexList: array<int>, freqItemP: array<int>, low: int, high: int, size: int)
    requires indexList != freqItemP && indexList.Length == freqItemP.Length
    requires 0 <= low <= high + 1 && high < size <= indexList.Length
    modifies indexList, freqItemP
    ensures forall i, j :: low <= i < j <= high ==> indexList[i] <= indexList[j]
    ensures SamePairs(old(indexList[..]), old(freqItemP[..]), indexList[..], freqItemP[..], low, high)
    ensures forall k :: 0 <= k < indexList.Length && (k < low || high < k) ==>
              indexList[k] == old(indexList[k]) && freqItemP[k] == old(freqItemP[k])
  {
    QuickSort(indexList, freqItemP, low, high, size, false);
    assert SortedRange(indexList[..], low, high, false);
  }
}
