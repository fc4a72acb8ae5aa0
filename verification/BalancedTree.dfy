/**
 * The midpoint tree of balancedReduce (helpers.go) and its streaming construction
 * incrementalBalanced (periodic_echo.go). Nothing is assumed of the combine
 * function: the two must agree on the exact grouping.
 */
module BalancedTree {

  /** The recursive reduction of values[lo..hi], both ends included. */
  function ReduceRange<T>(values: seq<T>, combine: (T, T) -> T, lo: nat, hi: nat): T
    requires lo <= hi < |values|
    decreases hi - lo
  {
    if lo == hi then values[lo]
    else
      var mid := (lo + hi) / 2;
      combine(ReduceRange(values, combine, lo, mid), ReduceRange(values, combine, mid + 1, hi))
  }

  /** A projection that respects the combine functions respects the reduction. */
  lemma {:induction false} ReduceProjects<A(!new), B>(values: seq<A>, combine: (A, A) -> A, project: A -> B,
      projected: seq<B>, combineProjected: (B, B) -> B, lo: nat, hi: nat)
    requires lo <= hi < |values| == |projected|
    requires forall i :: 0 <= i < |values| ==> projected[i] == project(values[i])
    requires forall x: A, y: A :: project(combine(x, y)) == combineProjected(project(x), project(y))
    ensures project(ReduceRange(values, combine, lo, hi)) == ReduceRange(projected, combineProjected, lo, hi)
    decreases hi - lo
  {
    if lo < hi {
      var mid := (lo + hi) / 2;
      ReduceProjects(values, combine, project, projected, combineProjected, lo, mid);
      ReduceProjects(values, combine, project, projected, combineProjected, mid + 1, hi);
    }
  }

  function BalancedReduce<T>(values: seq<T>, combine: (T, T) -> T): T
    requires |values| > 0
  {
    ReduceRange(values, combine, 0, |values| - 1)
  }

  /** The reduction of a range is that of the values in it, wherever the range starts. */
  lemma {:induction false} RangeIsItsValues<T>(values: seq<T>, combine: (T, T) -> T, lo: nat, hi: nat, other: seq<T>,
      low: nat, high: nat)
    requires lo <= hi < |values| && low <= high < |other| && values[lo..hi + 1] == other[low..high + 1]
    ensures ReduceRange(other, combine, low, high) == ReduceRange(values, combine, lo, hi)
    decreases hi - lo
  {
    var x, y := values[lo..hi + 1], other[low..high + 1];
    assert |x| == |y| && x[0] == values[lo] && y[0] == other[low];
    if lo < hi {
      var mid, m := (lo + hi) / 2, (low + high) / 2;
      assert m - low == mid - lo;
      assert values[lo..mid + 1] == x[..mid + 1 - lo] == y[..m + 1 - low] == other[low..m + 1];
      assert values[mid + 1..hi + 1] == x[mid + 1 - lo..] == y[m + 1 - low..] == other[m + 1..high + 1];
      RangeIsItsValues(values, combine, lo, mid, other, low, m);
      RangeIsItsValues(values, combine, mid + 1, hi, other, m + 1, high);
    }
  }

  /** One value is its own reduction; of more, the larger half comes first, and the halves are combined. */
  lemma HalvesCombined<T>(values: seq<T>, combine: (T, T) -> T)
    requires |values| > 0
    ensures |values| == 1 ==> BalancedReduce(values, combine) == values[0]
    ensures |values| > 1 ==>
      var half := (|values| + 1) / 2;
      BalancedReduce(values, combine)
        == combine(BalancedReduce(values[..half], combine), BalancedReduce(values[half..], combine))
  {
    if |values| > 1 {
      var half := (|values| + 1) / 2;
      RangeIsItsValues(values, combine, 0, half - 1, values[..half], 0, half - 1);
      RangeIsItsValues(values, combine, half, |values| - 1, values[half..], 0, |values| - half - 1);
    }
  }

  /**
   * The maximal subtrees of the tree over [lo, hi] whose leaves all lie below m,
   * from left to right: what a stream that has seen m leaves must keep.
   */
  ghost function Completed<T>(values: seq<T>, combine: (T, T) -> T, lo: nat, hi: nat, m: nat): seq<T>
    requires lo <= hi && m <= |values|
    decreases hi - lo
  {
    if m <= lo then []
    else if hi < m then [ReduceRange(values, combine, lo, hi)]
    else
      var mid := (lo + hi) / 2;
      if m <= mid then Completed(values, combine, lo, mid, m)
      else [ReduceRange(values, combine, lo, mid)] + Completed(values, combine, mid + 1, hi, m)
  }

  /** Ancestors on the path to leaf m that end at leaf m: the count the source loops over. */
  function Merges(lo: nat, hi: nat, m: nat): nat
    requires lo <= m <= hi
    decreases hi - lo
  {
    if lo == hi then 0
    else
      var mid := (lo + hi) / 2;
      (if hi == m then 1 else 0) + (if m <= mid then Merges(lo, mid, m) else Merges(mid + 1, hi, m))
  }

  /** Inner nodes anywhere in the tree over [lo, hi] whose rightmost leaf is m. */
  ghost function NodesEndingAt(lo: nat, hi: nat, m: nat): nat
    requires lo <= hi
    decreases hi - lo
  {
    if lo == hi then 0
    else
      var mid := (lo + hi) / 2;
      (if hi == m then 1 else 0) + NodesEndingAt(lo, mid, m) + NodesEndingAt(mid + 1, hi, m)
  }

  lemma {:induction false} NoNodeOutside(lo: nat, hi: nat, m: nat)
    requires lo <= hi && !(lo <= m <= hi)
    ensures NodesEndingAt(lo, hi, m) == 0
    decreases hi - lo
  {
    if lo < hi {
      NoNodeOutside(lo, (lo + hi) / 2, m);
      NoNodeOutside((lo + hi) / 2 + 1, hi, m);
    }
  }

  /** Every node is merged at the push of its rightmost leaf, and only there. */
  lemma {:induction false} MergedAtRightmostLeaf(lo: nat, hi: nat, m: nat)
    requires lo <= m <= hi
    ensures Merges(lo, hi, m) == NodesEndingAt(lo, hi, m)
    decreases hi - lo
  {
    if lo < hi {
      var mid := (lo + hi) / 2;
      if m <= mid {
        MergedAtRightmostLeaf(lo, mid, m);
        NoNodeOutside(mid + 1, hi, m);
      } else {
        MergedAtRightmostLeaf(mid + 1, hi, m);
        NoNodeOutside(lo, mid, m);
      }
    }
  }

  /** Replaces the last two entries by their combination. */
  function MergeOnce<T>(s: seq<T>, combine: (T, T) -> T): seq<T>
    requires |s| >= 2
  {
    s[..|s| - 2] + [combine(s[|s| - 2], s[|s| - 1])]
  }

  function MergeTop<T>(s: seq<T>, combine: (T, T) -> T, k: nat): (r: seq<T>)
    requires k < |s|
    ensures |r| == |s| - k
  {
    if k == 0 then s else MergeOnce(MergeTop(s, combine, k - 1), combine)
  }

  lemma {:induction false} MergeTopPrefix<T>(prefix: seq<T>, s: seq<T>, combine: (T, T) -> T, k: nat)
    requires k < |s|
    ensures MergeTop(prefix + s, combine, k) == prefix + MergeTop(s, combine, k)
  {
    if k > 0 {
      MergeTopPrefix(prefix, s, combine, k - 1);
    }
  }

  /** While the left half is not passed, the frontier is that of the left half. */
  lemma CompletedInLeft<T>(values: seq<T>, combine: (T, T) -> T, lo: nat, hi: nat, m: nat)
    requires lo < hi && m <= (lo + hi) / 2 + 1 && m <= |values|
    ensures Completed(values, combine, lo, hi, m) == Completed(values, combine, lo, (lo + hi) / 2, m)
  {
    var mid := (lo + hi) / 2;
    if m == mid + 1 && m <= hi {
      assert Completed(values, combine, mid + 1, hi, m) == [];
    }
  }

  lemma CompletedInRight<T>(values: seq<T>, combine: (T, T) -> T, lo: nat, hi: nat, m: nat)
    requires lo < hi && (lo + hi) / 2 < m <= hi && m <= |values|
    ensures Completed(values, combine, lo, hi, m)
         == [ReduceRange(values, combine, lo, (lo + hi) / 2)] + Completed(values, combine, (lo + hi) / 2 + 1, hi, m)
  {
  }

  /** The last leaf of a range completes the range. */
  lemma CompletedAtEnd<T>(values: seq<T>, combine: (T, T) -> T, lo: nat, hi: nat)
    requires lo <= hi < |values|
    ensures Completed(values, combine, lo, hi, hi + 1) == [ReduceRange(values, combine, lo, hi)]
  {
  }

  /** Merging the top entries leaves a completed left half in front of them; one more merge takes it in. */
  lemma MergeBesideLeft<T>(left: T, before: seq<T>, value: T, after: seq<T>, combine: (T, T) -> T, k: nat)
    requires k <= |before| && MergeTop(before + [value], combine, k) == after
    ensures MergeTop([left] + before + [value], combine, k) == [left] + after
    ensures |after| == 1 ==> MergeTop([left] + before + [value], combine, k + 1) == [combine(left, after[0])]
  {
    assert [left] + before + [value] == [left] + (before + [value]);
    MergeTopPrefix([left], before + [value], combine, k);
  }

  /** Pushing leaf m and merging the counted ancestors gives the frontier for m + 1. */
  lemma {:induction false} PushCompletes<T>(values: seq<T>, combine: (T, T) -> T, lo: nat, hi: nat, m: nat)
    requires lo <= m <= hi && m < |values|
    ensures Merges(lo, hi, m) <= |Completed(values, combine, lo, hi, m)|
    ensures MergeTop(Completed(values, combine, lo, hi, m) + [values[m]], combine, Merges(lo, hi, m))
         == Completed(values, combine, lo, hi, m + 1)
    decreases hi - lo
  {
    if lo == hi {
      PushCompletesLeaf(values, combine, lo);
    } else {
      var mid := (lo + hi) / 2;
      if m <= mid {
        PushCompletes(values, combine, lo, mid, m);
        PushCompletesLeft(values, combine, lo, hi, m);
      } else {
        PushCompletes(values, combine, mid + 1, hi, m);
        PushCompletesRight(values, combine, lo, hi, m);
      }
    }
  }

  lemma PushCompletesLeaf<T>(values: seq<T>, combine: (T, T) -> T, m: nat)
    requires m < |values|
    ensures Completed(values, combine, m, m, m) == [] && Merges(m, m, m) == 0
    ensures MergeTop([] + [values[m]], combine, 0) == Completed(values, combine, m, m, m + 1)
  {
  }

  lemma PushCompletesLeft<T>(values: seq<T>, combine: (T, T) -> T, lo: nat, hi: nat, m: nat)
    requires lo < hi && lo <= m <= (lo + hi) / 2 && m < |values|
    requires var mid := (lo + hi) / 2; var inner := Merges(lo, mid, m);
      && inner <= |Completed(values, combine, lo, mid, m)|
      && MergeTop(Completed(values, combine, lo, mid, m) + [values[m]], combine, inner)
        == Completed(values, combine, lo, mid, m + 1)
    ensures Merges(lo, hi, m) <= |Completed(values, combine, lo, hi, m)|
    ensures MergeTop(Completed(values, combine, lo, hi, m) + [values[m]], combine, Merges(lo, hi, m))
         == Completed(values, combine, lo, hi, m + 1)
  {
    CompletedInLeft(values, combine, lo, hi, m);
    CompletedInLeft(values, combine, lo, hi, m + 1);
  }

  lemma PushCompletesRight<T>(values: seq<T>, combine: (T, T) -> T, lo: nat, hi: nat, m: nat)
    requires lo < hi && (lo + hi) / 2 < m <= hi && m < |values|
    requires var mid := (lo + hi) / 2; var inner := Merges(mid + 1, hi, m);
      && inner <= |Completed(values, combine, mid + 1, hi, m)|
      && MergeTop(Completed(values, combine, mid + 1, hi, m) + [values[m]], combine, inner)
        == Completed(values, combine, mid + 1, hi, m + 1)
    ensures Merges(lo, hi, m) <= |Completed(values, combine, lo, hi, m)|
    ensures MergeTop(Completed(values, combine, lo, hi, m) + [values[m]], combine, Merges(lo, hi, m))
         == Completed(values, combine, lo, hi, m + 1)
  {
    var mid := (lo + hi) / 2;
    var left := ReduceRange(values, combine, lo, mid);
    var before, after := Completed(values, combine, mid + 1, hi, m), Completed(values, combine, mid + 1, hi, m + 1);
    CompletedInRight(values, combine, lo, hi, m);
    MergeBesideLeft(left, before, values[m], after, combine, Merges(mid + 1, hi, m));
    if hi == m {
      CompletedAtEnd(values, combine, mid + 1, hi);
      CompletedAtEnd(values, combine, lo, hi);
    } else {
      CompletedInRight(values, combine, lo, hi, m + 1);
    }
  }

  /** The frontier depends only on the leaves already seen. */
  lemma {:induction false} ReduceRangePrefix<T>(values: seq<T>, more: seq<T>, combine: (T, T) -> T, lo: nat, hi: nat)
    requires lo <= hi < |values| <= |more| && more[..|values|] == values
    ensures ReduceRange(values, combine, lo, hi) == ReduceRange(more, combine, lo, hi)
    decreases hi - lo
  {
    if lo == hi {
      assert more[..|values|][lo] == more[lo];
    } else {
      ReduceRangePrefix(values, more, combine, lo, (lo + hi) / 2);
      ReduceRangePrefix(values, more, combine, (lo + hi) / 2 + 1, hi);
    }
  }

  lemma {:induction false} CompletedPrefix<T>(values: seq<T>, more: seq<T>, combine: (T, T) -> T, lo: nat, hi: nat,
      m: nat)
    requires lo <= hi && m <= |values| <= |more| && more[..|values|] == values
    ensures Completed(values, combine, lo, hi, m) == Completed(more, combine, lo, hi, m)
    decreases hi - lo
  {
    if m <= lo {
    } else if hi < m {
      ReduceRangePrefix(values, more, combine, lo, hi);
    } else {
      var mid := (lo + hi) / 2;
      if m <= mid {
        CompletedPrefix(values, more, combine, lo, mid, m);
      } else {
        ReduceRangePrefix(values, more, combine, lo, mid);
        CompletedPrefix(values, more, combine, mid + 1, hi, m);
      }
    }
  }

  // -------------------------------------------------------- size and work

  function Log2(n: nat): nat
    requires n > 0
  {
    if n == 1 then 0 else 1 + Log2(n / 2)
  }

  lemma {:induction false} Log2Monotone(m: nat, n: nat)
    requires 0 < m <= n
    ensures Log2(m) <= Log2(n)
  {
    if m > 1 {
      Log2Monotone(m / 2, n / 2);
    }
  }

  /** An incomplete tree keeps at most floor(log2 size) subtrees. */
  lemma {:induction false} FrontierLogarithmic<T>(values: seq<T>, combine: (T, T) -> T, lo: nat, hi: nat, m: nat)
    requires lo <= hi && m <= hi && m <= |values|
    ensures |Completed(values, combine, lo, hi, m)| <= Log2(hi - lo + 1)
    decreases hi - lo
  {
    if lo < m {
      var mid := (lo + hi) / 2;
      if m <= mid {
        FrontierLogarithmic(values, combine, lo, mid, m);
        Log2Monotone(mid - lo + 1, hi - lo + 1);
      } else {
        FrontierLogarithmic(values, combine, mid + 1, hi, m);
        assert hi - mid == (hi - lo + 1) / 2;
      }
    }
  }

  /** The combinations done by the first m pushes. */
  ghost function MergesBefore(total: nat, m: nat): nat
    requires m <= total
  {
    if m == 0 then 0 else MergesBefore(total, m - 1) + Merges(0, total - 1, m - 1)
  }

  /** A full run combines total - 1 times; a partial one leaves its frontier uncombined. */
  lemma {:induction false} WorkOfRun<T>(values: seq<T>, combine: (T, T) -> T, total: nat, m: nat)
    requires m <= total && 0 < total && m <= |values|
    ensures MergesBefore(total, m) + |Completed(values, combine, 0, total - 1, m)| == m
    ensures m == total ==> MergesBefore(total, m) == total - 1
  {
    if m > 0 {
      WorkOfRun(values, combine, total, m - 1);
      PushCompletes(values, combine, 0, total - 1, m - 1);
    }
  }

  // ------------------------------------------------------ incrementalBalanced

  /** What the next push finds and leaves behind. */
  lemma PushFacts<T>(leaves: seq<T>, value: T, combine: (T, T) -> T, total: nat)
    requires |leaves| < total
    ensures var m := |leaves|; var seen := leaves + [value];
      var before, after := Completed(leaves, combine, 0, total - 1, m), Completed(seen, combine, 0, total - 1, m + 1);
      && |before| <= Log2(total)
      && Merges(0, total - 1, m) <= |before|
      && MergeTop(before + [value], combine, Merges(0, total - 1, m)) == after
  {
    var seen := leaves + [value];
    CompletedPrefix(leaves, seen, combine, 0, total - 1, |leaves|);
    PushCompletes(seen, combine, 0, total - 1, |leaves|);
    FrontierLogarithmic(seen, combine, 0, total - 1, |leaves|);
  }

  /** The loop over the midpoint path to the leaf being received. */
  method CountMerges(total: nat, received: nat) returns (merges: nat)
    requires received < total
    ensures merges == Merges(0, total - 1, received)
  {
    merges := 0;
    var lo: nat, hi: nat := 0, total - 1;
    while lo < hi
      invariant lo <= received <= hi
      invariant merges + Merges(lo, hi, received) == Merges(0, total - 1, received)
      decreases hi - lo
    {
      if hi == received {
        merges := merges + 1;
      }
      var mid := (lo + hi) / 2;
      if received <= mid {
        hi := mid;
      } else {
        lo := mid + 1;
      }
    }
  }

  /** The streaming reducer, for any value type and any combine function. */
  class IncrementalBalanced<T> {
    const total: nat
    const combine: (T, T) -> T
    var received: nat
    var frontier: seq<T>
    ghost var leaves: seq<T>

    ghost predicate Valid()
      reads this
    {
      && received <= total
      && |leaves| == received
      && frontier == if total == 0 then [] else Completed(leaves, combine, 0, total - 1, received)
    }

    constructor (total: nat, combine: (T, T) -> T)
      ensures Valid() && leaves == []
      ensures this.total == total && this.combine == combine
    {
      this.total := total;
      this.combine := combine;
      received := 0;
      frontier := [];
      leaves := [];
    }

    /**
     * The frontier stays logarithmic at every point of the push, and every
     * combination finds its two operands.
     */
    method Push(value: T)
      requires Valid() && received < total
      modifies this
      ensures Valid() && leaves == old(leaves) + [value] && received == old(received) + 1
      ensures |frontier| <= Log2(total) + 1
    {
      PushFacts(leaves, value, combine, total);
      frontier := frontier + [value];
      var merges := CountMerges(total, received);
      MergeClosed(merges, Log2(total) + 1);
      received := received + 1;
      leaves := leaves + [value];
    }

    /** The merge loop of a push. */
    method MergeClosed(merges: nat, ghost bound: nat)
      requires merges < |frontier| <= bound
      modifies this`frontier
      ensures frontier == MergeTop(old(frontier), combine, merges) && |frontier| <= bound
    {
      for done := 0 to merges
        invariant frontier == MergeTop(old(frontier), combine, done)
        invariant |frontier| <= bound
      {
        ghost var before := frontier;
        var n := |frontier|;
        var merged := combine(frontier[n - 2], frontier[n - 1]);
        frontier := frontier[..n - 1][n - 2 := merged];
        assert frontier == MergeOnce(before, combine);
      }
    }

    method Result() returns (root: T)
      requires Valid() && received == total && total > 0
      ensures root == BalancedReduce(leaves, combine)
    {
      assert |frontier| == 1;
      root := frontier[0];
    }
  }

  /** Pushing all values one at a time rebuilds the recursive reduction exactly. */
  method StreamAll<T>(values: seq<T>, combine: (T, T) -> T) returns (root: T)
    requires |values| > 0
    ensures root == BalancedReduce(values, combine)
  {
    var tree := new IncrementalBalanced(|values|, combine);
    for i := 0 to |values|
      invariant tree.Valid() && tree.leaves == values[..i] && tree.received == i
      invariant tree.total == |values| && tree.combine == combine
    {
      assert values[..i + 1] == values[..i] + [values[i]];
      tree.Push(values[i]);
    }
    assert values[..|values|] == values;
    root := tree.Result();
  }
}
