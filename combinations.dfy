/**
 * combine_string of fpt.cpp: the itemsets formed from the items of one
 * branch p[0..index] of the FP-tree, root side first.  Each itemset is
 * kept as the sequence of its items rather than as their decimal
 * rendering joined by spaces.
 *
 * The source extends only the first 2*index-1 itemsets of the previous
 * level with p[index]; CombineAsWritten models that and the lemmas below
 * show it loses itemsets from index 3 on.  CombineAll and the method
 * CombineString extend every itemset of the previous level, which yields
 * each non-empty itemset of the branch exactly as intended.
 */
module Combinations {

  function Pow2(n: nat): (r: nat)
    ensures r >= 1
  {
    if n == 0 then 1 else 2 * Pow2(n - 1)
  }

  /** idx lists positions of a branch p[0..i] in strictly increasing order, at least one. */
  predicate Increasing(idx: seq<int>, i: int)
  {
    && |idx| > 0
    && (forall k :: 0 <= k < |idx| ==> 0 <= idx[k] <= i)
    && (forall a, b :: 0 <= a < b < |idx| ==> idx[a] < idx[b])
  }

  /** The items of p at the positions idx. */
  function Pick(p: seq<int>, idx: seq<int>): (r: seq<int>)
    requires forall k :: 0 <= k < |idx| ==> 0 <= idx[k] < |p|
    ensures |r| == |idx| && forall k :: 0 <= k < |idx| ==> r[k] == p[idx[k]]
  {
    seq(|idx|, k requires 0 <= k < |idx| => p[idx[k]])
  }

  /**
   * combine_string as written: the itemsets of p[0..i-1] (after those
   * already in v), then the first 2*i-1 of the entries of v and of that
   * level each extended with p[i], then p[i] alone.
   */
  function CombineAsWritten(p: seq<int>, i: nat, v: seq<seq<int>>): (r: seq<seq<int>>)
    requires i < |p|
    ensures |r| == |v| + 1 + i * (i + 1)
  {
    if i == 0 then v + [[p[0]]]
    else
      var w := CombineAsWritten(p, i - 1, v);
      assert 2 * i - 1 <= |w| by {
        assert (i - 1) * (i - 2) >= 0;
      }
      w + seq(2 * i - 1, n requires 0 <= n < 2 * i - 1 => w[n] + [p[i]]) + [[p[i]]]
  }

  /** combine_string with the extension running over every entry of the previous level. */
  function CombineAll(p: seq<int>, i: nat, v: seq<seq<int>>): (r: seq<seq<int>>)
    requires i < |p|
    ensures |r| == Pow2(i) * (|v| + 2) - 1
  {
    if i == 0 then v + [[p[0]]]
    else
      var w := CombineAll(p, i - 1, v);
      w + seq(|w|, n requires 0 <= n < |w| => w[n] + [p[i]]) + [[p[i]]]
  }

  /** From an empty vector there are 2^(i+1)-1 itemsets: one per non-empty subset of the branch. */
  lemma CombineAllCount(p: seq<int>, i: nat)
    requires i < |p|
    ensures |CombineAll(p, i, [])| == Pow2(i + 1) - 1
  {
  }

  /** s is the selection of p at some increasing indices up to i. */
  ghost predicate Selects(p: seq<int>, i: nat, s: seq<int>)
    requires i < |p|
  {
    exists idx :: Increasing(idx, i) && Pick(p, idx) == s
  }

  /** Every itemset CombineAll yields is a selection of the branch in branch order. */
  lemma {:induction false} CombineAllSound(p: seq<int>, i: nat)
    requires i < |p|
    ensures forall n :: 0 <= n < |CombineAll(p, i, [])| ==> Selects(p, i, CombineAll(p, i, [])[n])
  {
    var r := CombineAll(p, i, []);
    if i == 0 {
      assert Increasing([0], 0) && Pick(p, [0]) == r[0];
    } else {
      var w := CombineAll(p, i - 1, []);
      CombineAllSound(p, i - 1);
      forall n | 0 <= n < |r|
        ensures Selects(p, i, r[n])
      {
        if n < |w| {
          assert Selects(p, i - 1, w[n]);
          var idx :| Increasing(idx, i - 1) && Pick(p, idx) == w[n];
          assert Increasing(idx, i) && Pick(p, idx) == r[n];
        } else if n < 2 * |w| {
          assert Selects(p, i - 1, w[n - |w|]);
          var idx :| Increasing(idx, i - 1) && Pick(p, idx) == w[n - |w|];
          assert Increasing(idx + [i], i) && Pick(p, idx + [i]) == r[n];
        } else {
          assert Increasing([i], i) && Pick(p, [i]) == r[n];
        }
      }
    }
  }

  /** Every non-empty selection of the branch in branch order is among CombineAll's itemsets. */
  lemma CombineAllComplete(p: seq<int>, i: nat)
    requires i < |p|
    ensures forall idx :: Increasing(idx, i) ==> Pick(p, idx) in CombineAll(p, i, [])
  {
    forall idx | Increasing(idx, i)
      ensures Pick(p, idx) in CombineAll(p, i, [])
    {
      SelectionListed(p, i, idx);
    }
  }

  /** The selection of p at positions idx is listed: at the end, in the copied level, or in its extension. */
  lemma {:induction false} SelectionListed(p: seq<int>, i: nat, idx: seq<int>)
    requires i < |p| && Increasing(idx, i)
    decreases i, 1
    ensures Pick(p, idx) in CombineAll(p, i, [])
  {
    var last := idx[|idx| - 1];
    if last < i {
      ListedBefore(p, i, idx);
    } else if |idx| == 1 {
      var r := CombineAll(p, i, []);
      assert Pick(p, idx) == r[|r| - 1];
    } else {
      assert idx[0] < last;
      ListedExtended(p, i, idx);
    }
  }

  /** A selection that stops before position i is listed in the copy of the previous level. */
  lemma {:induction false} ListedBefore(p: seq<int>, i: nat, idx: seq<int>)
    requires 0 < i < |p| && Increasing(idx, i) && idx[|idx| - 1] < i
    decreases i, 0
    ensures Pick(p, idx) in CombineAll(p, i, [])
  {
    var w := CombineAll(p, i - 1, []);
    assert Increasing(idx, i - 1);
    SelectionListed(p, i - 1, idx);
    var n :| 0 <= n < |w| && w[n] == Pick(p, idx);
    assert CombineAll(p, i, [])[n] == Pick(p, idx);
  }

  /** A selection that ends at position i, after others, is listed among the extended entries. */
  lemma {:induction false} ListedExtended(p: seq<int>, i: nat, idx: seq<int>)
    requires 0 < i < |p| && Increasing(idx, i) && idx[|idx| - 1] == i && |idx| > 1
    decreases i, 0
    ensures Pick(p, idx) in CombineAll(p, i, [])
  {
    var w := CombineAll(p, i - 1, []);
    var front := idx[..|idx| - 1];
    assert Increasing(front, i - 1) by {
      forall k | 0 <= k < |front| ensures front[k] <= i - 1 {
        assert idx[k] < idx[|idx| - 1];
      }
    }
    SelectionListed(p, i - 1, front);
    var n :| 0 <= n < |w| && w[n] == Pick(p, front);
    assert idx == front + [i];
    PickSnoc(p, front, i);
    assert CombineAll(p, i, [])[|w| + n] == w[n] + [p[i]];
  }

  /** Picking one more position appends its item. */
  lemma PickSnoc(p: seq<int>, idx: seq<int>, x: int)
    requires (forall k :: 0 <= k < |idx| ==> 0 <= idx[k] < |p|) && 0 <= x < |p|
    ensures Pick(p, idx + [x]) == Pick(p, idx) + [p[x]]
  {
    assert forall k :: 0 <= k < |idx| ==> (idx + [x])[k] == idx[k];
  }

  /** Up to three items the source's bound 2*i-1 covers the whole previous level. */
  lemma {:induction false} AsWrittenAgreesUpToTwo(p: seq<int>, i: nat)
    requires i < |p| && i <= 2
    ensures CombineAsWritten(p, i, []) == CombineAll(p, i, [])
  {
    if i > 0 {
      AsWrittenAgreesUpToTwo(p, i - 1);
    }
  }

  /** On the branch 0,1,2,3 the itemset {2,3} is never produced. */
  lemma AsWrittenMissesItemset()
    ensures [2, 3] !in CombineAsWritten([0, 1, 2, 3], 3, [])
    ensures Increasing([2, 3], 3) && Pick([0, 1, 2, 3], [2, 3]) == [2, 3]
  {
    var p := [0, 1, 2, 3];
    var w0 := CombineAsWritten(p, 0, []);
    assert w0 == [[0]];
    var w1 := CombineAsWritten(p, 1, []);
    assert w1[1] == [0, 1] && w1[2] == [1];
    assert w1 == [[0], [0, 1], [1]];
    var w2 := CombineAsWritten(p, 2, []);
    assert w2[3] == [0, 2] && w2[4] == [0, 1, 2] && w2[5] == [1, 2] && w2[6] == [2];
    assert w2 == [[0], [0, 1], [1], [0, 2], [0, 1, 2], [1, 2], [2]];
    var r := CombineAsWritten(p, 3, []);
    assert r[7] == [0, 3] && r[8] == [0, 1, 3] && r[9] == [1, 3] && r[10] == [0, 2, 3];
    assert r[11] == [0, 1, 2, 3] && r[12] == [3];
    assert r == [[0], [0, 1], [1], [0, 2], [0, 1, 2], [1, 2], [2],
                 [0, 3], [0, 1, 3], [1, 3], [0, 2, 3], [0, 1, 2, 3], [3]];
  }

  /** Every itemset the source yields is a selection of the branch in branch order, the last one p[i] alone. */
  lemma {:induction false} CombineAsWrittenSound(p: seq<int>, i: nat)
    requires i < |p|
    ensures forall n :: 0 <= n < |CombineAsWritten(p, i, [])| ==> Selects(p, i, CombineAsWritten(p, i, [])[n])
    ensures CombineAsWritten(p, i, [])[|CombineAsWritten(p, i, [])| - 1] == [p[i]]
  {
    var r := CombineAsWritten(p, i, []);
    if i == 0 {
      assert Increasing([0], 0) && Pick(p, [0]) == r[0];
    } else {
      var w := CombineAsWritten(p, i - 1, []);
      CombineAsWrittenSound(p, i - 1);
      forall n | 0 <= n < |r|
        ensures Selects(p, i, r[n])
      {
        if n < |w| {
          assert Selects(p, i - 1, w[n]);
          var idx :| Increasing(idx, i - 1) && Pick(p, idx) == w[n];
          assert Increasing(idx, i) && Pick(p, idx) == r[n];
        } else if n < |w| + 2 * i - 1 {
          assert Selects(p, i - 1, w[n - |w|]);
          var idx :| Increasing(idx, i - 1) && Pick(p, idx) == w[n - |w|];
          assert Increasing(idx + [i], i) && Pick(p, idx + [i]) == r[n];
        } else {
          assert Increasing([i], i) && Pick(p, [i]) == r[n];
        }
      }
    }
  }

  /** No itemset of the branch up to i - 1 contains p[i] when the items are distinct. */
  lemma WithoutLater(p: seq<int>, i: nat, s: seq<int>, x: int)
    requires i < |p| && Selects(p, i, s)
    requires forall a, b :: 0 <= a < b < |p| ==> p[a] != p[b]
    requires i < x < |p|
    ensures p[x] !in s && |s| >= 1
  {
    var idx :| Increasing(idx, i) && Pick(p, idx) == s;
    forall k | 0 <= k < |s|
      ensures s[k] != p[x]
    {
      assert s[k] == p[idx[k]] && idx[k] < x;
    }
  }

  /** The first 2*j+1 entries of the level j never equal p[j] alone, from j == 2 on. */
  lemma {:induction false} ExtendedPrefixMissesSingleton(p: seq<int>, j: nat)
    requires 2 <= j < |p|
    requires forall a, b :: 0 <= a < b < |p| ==> p[a] != p[b]
    ensures forall n :: 0 <= n < 2 * j + 1 ==> CombineAsWritten(p, j, [])[n] != [p[j]]
  {
    var w' := CombineAsWritten(p, j - 1, []);
    var w := CombineAsWritten(p, j, []);
    CombineAsWrittenSound(p, j - 1);
    forall n | 0 <= n < 2 * j + 1
      ensures w[n] != [p[j]]
    {
      if n < |w'| {
        WithoutLater(p, j - 1, w'[n], j);
        assert w[n] == w'[n];
      } else {
        WithoutLater(p, j - 1, w'[n - |w'|], j);
        assert |w[n]| >= 2;
      }
    }
  }

  /**
   * On every branch of at least four distinct items the source loses the
   * pair of its last two items: p[i-1] alone is the last entry of the
   * previous level, beyond the first 2*i-1 that are extended.
   */
  lemma {:induction false} AsWrittenLosesPair(p: seq<int>, i: nat)
    requires 3 <= i < |p|
    requires forall a, b :: 0 <= a < b < |p| ==> p[a] != p[b]
    ensures [p[i - 1], p[i]] !in CombineAsWritten(p, i, [])
    ensures Increasing([i - 1, i], i) && Pick(p, [i - 1, i]) == [p[i - 1], p[i]]
  {
    var w := CombineAsWritten(p, i - 1, []);
    var r := CombineAsWritten(p, i, []);
    CombineAsWrittenSound(p, i - 1);
    ExtendedPrefixMissesSingleton(p, i - 1);
    forall n | 0 <= n < |r|
      ensures r[n] != [p[i - 1], p[i]]
    {
      if n < |w| {
        WithoutLater(p, i - 1, w[n], i);
        assert r[n] == w[n] && p[i] in [p[i - 1], p[i]];
      } else if n < |w| + 2 * i - 1 {
        var e := w[n - |w|];
        assert r[n] == e + [p[i]];
        assert e != [p[i - 1]] by {
          assert n - |w| < 2 * (i - 1) + 1;
        }
        if |e| == 1 {
          assert r[n][0] == e[0] != p[i - 1];
        }
      } else {
        assert r[n] == [p[i]];
      }
    }
  }

  /** combine_string as written: only the first 2*index-1 itemsets of the previous level are extended. */
  method CombineStringAsWritten(p: seq<int>, index: nat, v: seq<seq<int>>) returns (r: seq<seq<int>>)
    requires index < |p|
    decreases index
    ensures r == CombineAsWritten(p, index, v)
  {
    if index == 0 {
      r := v + [[p[0]]];
    } else {
      r := CombineStringAsWritten(p, index - 1, v);
      var s := p[index];
      ghost var w := r;
      assert 2 * index - 1 <= |w| by {
        assert (index - 1) * (index - 2) >= 0;
      }
      for n := 0 to 2 * index - 1
        invariant |r| == |w| + n && r[..|w|] == w
        invariant forall k :: 0 <= k < n ==> r[|w| + k] == w[k] + [s]
      {
        r := r + [r[n] + [s]];
      }
      r := r + [[s]];
      assert r == w + seq(2 * index - 1, n requires 0 <= n < 2 * index - 1 => w[n] + [s]) + [[s]];
    }
  }

  /**
   * combine_string: appends to v the itemsets of the branch p[0..index],
   * extending every itemset of the previous level with p[index].
   */
  method CombineString(p: seq<int>, index: nat, v: seq<seq<int>>) returns (r: seq<seq<int>>)
    requires index < |p|
    decreases index
    ensures r == CombineAll(p, index, v)
  {
    if index == 0 {
      r := v + [[p[0]]];
    } else {
      r := CombineString(p, index - 1, v);
      var s := p[index];
      var size := |r|;
      ghost var w := r;
      for n := 0 to size
        invariant |r| == size + n && r[..size] == w
        invariant forall k :: 0 <= k < n ==> r[size + k] == w[k] + [s]
      {
        r := r + [r[n] + [s]];
      }
      r := r + [[s]];
      assert r == w + seq(|w|, n requires 0 <= n < |w| => w[n] + [s]) + [[s]];
    }
  }
}
