/**
 * Depth, operation counts and refreshes of the echo: the closed forms of
 * analytical_requirements.py and parameter_table.py, proved of the circuit that the
 * echo state runs.
 */
module EchoCosts {
  import opened Modular
  import opened Wrappers
  import opened BalancedTree
  import opened Bgv
  import opened EchoAlgebra
  import opened PeriodicEcho

  // -------------------------------------------------------- multiplication depth

  /** analytical_requirements.py tree_depth, which splits by size. */
  function TreeDepth(periods: nat): Segment<int>
    requires periods >= 1
  {
    if periods == 1 then LEAF_DEPTHS
    else
      var l := TreeDepth((periods + 1) / 2);
      var r := TreeDepth(periods / 2);
      Segment(
        Max(r.a, l.a) + 1,
        Max(Max(r.a, l.b) + 1, r.b),
        Max(l.c, Max(r.c, l.a) + 1),
        Max(Max(l.d, r.d), Max(r.c, l.b) + 1))
  }

  lemma TreeDepthComposes(n: nat)
    requires n > 1
    ensures TreeDepth(n) == ComposeDepths(TreeDepth((n + 1) / 2), TreeDepth(n / 2))
  {
  }

  /** Reduction of n equal leaves, split by size as the Python model does. */
  function ReduceBySize<T>(leaf: T, combine: (T, T) -> T, n: nat): T
    requires n >= 1
  {
    if n == 1 then leaf
    else combine(ReduceBySize(leaf, combine, (n + 1) / 2), ReduceBySize(leaf, combine, n / 2))
  }

  /** Splitting by midpoint index and splitting by size build the same tree. */
  lemma {:induction false} IndexSplitIsSizeSplit<T>(leaves: seq<T>, leaf: T, combine: (T, T) -> T, lo: nat, hi: nat)
    requires lo <= hi < |leaves| && forall i :: 0 <= i < |leaves| ==> leaves[i] == leaf
    ensures ReduceRange(leaves, combine, lo, hi) == ReduceBySize(leaf, combine, hi - lo + 1)
    decreases hi - lo
  {
    if lo < hi {
      var mid := (lo + hi) / 2;
      IndexSplitIsSizeSplit(leaves, leaf, combine, lo, mid);
      IndexSplitIsSizeSplit(leaves, leaf, combine, mid + 1, hi);
      assert mid - lo + 1 == (hi - lo + 1 + 1) / 2 && hi - (mid + 1) + 1 == (hi - lo + 1) / 2;
    }
  }

  lemma {:induction false} TreeDepthIsReduction(n: nat)
    requires n >= 1
    ensures ReduceBySize(LEAF_DEPTHS, ComposeDepths, n) == TreeDepth(n)
  {
    if n > 1 {
      TreeDepthIsReduction((n + 1) / 2);
      TreeDepthIsReduction(n / 2);
      TreeDepthComposes(n);
    }
  }

  function CeilLog2(n: nat): nat
    requires n >= 1
  {
    if n == 1 then 0 else 1 + CeilLog2((n + 1) / 2)
  }

  /** CeilLog2(n) is the least exponent whose power of two reaches n. */
  lemma {:induction false} CeilLog2IsLeast(n: nat)
    requires n >= 1
    ensures n <= PowTwo(CeilLog2(n))
    ensures CeilLog2(n) > 0 ==> PowTwo(CeilLog2(n) - 1) < n
  {
    if n > 1 {
      CeilLog2IsLeast((n + 1) / 2);
      if CeilLog2((n + 1) / 2) > 0 {
        assert PowTwo(CeilLog2(n) - 1) == 2 * PowTwo(CeilLog2(n) - 2);
      }
    }
  }

  lemma {:induction false} CeilLog2Monotone(m: nat, n: nat)
    requires 1 <= m <= n
    ensures CeilLog2(m) <= CeilLog2(n)
  {
    if m > 1 {
      CeilLog2Monotone((m + 1) / 2, (n + 1) / 2);
    }
  }

  lemma LogarithmicStep(x: nat, y: nat)
    requires y <= x
    ensures ComposeDepths(Segment(x, x + 1, x, x + 1), Segment(y, y + 1, y, y + 1))
      == Segment(x + 1, x + 2, x + 1, x + 2)
  {
  }

  lemma {:induction false} TreeDepthIsLogarithmic(n: nat)
    requires n >= 1
    ensures var L := CeilLog2(n); TreeDepth(n) == Segment(L, L + 1, L, L + 1)
  {
    if n > 1 {
      TreeDepthIsLogarithmic((n + 1) / 2);
      TreeDepthIsLogarithmic(n / 2);
      CeilLog2Monotone(n / 2, (n + 1) / 2);
      LogarithmicStep(CeilLog2((n + 1) / 2), CeilLog2(n / 2));
      TreeDepthComposes(n);
    }
  }

  // ------------------------------------------------------------ operation counts

  /** analytical_requirements.py echo_ct_multiplications, for the two echo states. */
  function ModelMultiplications(mode: EchoMode, blocks: nat, periods: nat): int {
    (if mode == Tree then 8 else 2) * blocks * (periods - 1) + 2 * blocks * periods
  }

  /** analytical_requirements.py echo_ct_additions. */
  function ModelAdditions(mode: EchoMode, blocks: nat, periods: nat): int {
    (if mode == Tree then 8 else 4) * blocks * (periods - 1)
  }

  lemma {:induction false} TreeCounts(periods: nat, blocks: nat, m: nat)
    requires m <= periods && periods > 0
    ensures MulsAfter(Tree, periods, blocks, m) == m * blocks + MergesBefore(periods, m) * (4 * blocks)
    ensures AddsAfter(Tree, periods, blocks, m) == MergesBefore(periods, m) * (4 * blocks)
  {
    if m > 0 {
      TreeCounts(periods, blocks, m - 1);
      Distribute(4 * blocks, MergesBefore(periods, m - 1), Merges(0, periods - 1, m - 1));
      Distribute(blocks, m - 1, 1);
    }
  }

  lemma {:induction false} SequentialCounts(periods: nat, blocks: nat, m: nat)
    requires 0 < m <= periods
    ensures MulsAfter(Sequential, periods, blocks, m) == m * blocks + (m - 1) * blocks
    ensures AddsAfter(Sequential, periods, blocks, m) == (m - 1) * (2 * blocks)
  {
    if m == 1 {
      assert MulsAfter(Sequential, periods, blocks, 0) == 0;
      assert AddsAfter(Sequential, periods, blocks, 0) == 0;
    } else {
      SequentialCounts(periods, blocks, m - 1);
      Distribute(blocks, m - 1, 1);
      Distribute(blocks, m - 2, 1);
      Distribute(2 * blocks, m - 2, 1);
    }
  }

  /** Candidate and delegation echo together do exactly the modelled operations. */
  lemma CountsMatchModel(mode: EchoMode, blocks: nat, periods: nat)
    requires periods > 0
    ensures 2 * MulsAfter(mode, periods, blocks, periods) == ModelMultiplications(mode, blocks, periods)
    ensures 2 * AddsAfter(mode, periods, blocks, periods) == ModelAdditions(mode, blocks, periods)
  {
    if mode == Tree {
      TreeCounts(periods, blocks, periods);
      var leaves := seq(periods, _ => 0);
      WorkOfRun(leaves, Added, periods, periods);
    } else {
      SequentialCounts(periods, blocks, periods);
    }
    Regroup(periods - 1, blocks, 4);
    Regroup(periods - 1, blocks, 2);
    Regroup(periods - 1, blocks, 1);
    Regroup(periods, blocks, 1);
  }

  lemma Regroup(x: nat, blocks: nat, c: nat)
    ensures 2 * (x * (c * blocks)) == (2 * c) * blocks * x
  {
    assert x * (c * blocks) == (c * blocks) * x;
    assert 2 * ((c * blocks) * x) == (2 * (c * blocks)) * x;
  }

  /** Five multiplications a period and leaf in a tree, less four; two a period, less one, in sequence. */
  lemma ModelNumbers(mode: EchoMode, blocks: nat, periods: nat)
    requires periods > 0
    ensures ModelMultiplications(mode, blocks, periods)
         == 2 * blocks * (if mode == Tree then 5 * periods - 4 else 2 * periods - 1)
    ensures ModelAdditions(mode, blocks, periods)
      == 4 * blocks * (if mode == Tree then 2 * (periods - 1) else periods - 1)
  {
    var x := 2 * blocks;
    assert 8 * blocks * (periods - 1) == x * (4 * (periods - 1)) == 4 * blocks * (2 * (periods - 1));
    Distribute(x, 4 * (periods - 1), periods);
    Distribute(x, periods - 1, periods);
  }

  // ------------------------------------------------------------------- refreshes

  /** main.go: the interval is kept only for collective sequential runs. */
  function EffectiveInterval(mode: EchoMode, collective: bool, flag: nat): nat {
    if mode == Sequential && collective then flag else 0
  }

  /** main.go's refresh predicate, whose remainder is undefined for a zero interval. */
  function RefreshPredicate(collective: bool, periods: nat, interval: nat): nat --> bool {
    (p: nat) requires collective && 0 < p < periods - 1 ==> interval != 0 =>
      collective && p > 0 && p < periods - 1 && p % interval == 0
  }

  /** No call a run can make divides by a zero interval. */
  lemma PolicyAlwaysDefined(mode: EchoMode, collective: bool, periods: nat, flag: nat)
    requires mode == Sequential && collective ==> flag > 0
    ensures PolicyDefined(mode, periods,
                          Some(RefreshPredicate(collective, periods, EffectiveInterval(mode, collective, flag))))
  {
  }

  /** parameter_table.py: the multiples of the interval among 1..k. */
  function MultiplesUpTo(k: nat, interval: nat): nat
    requires interval > 0
  {
    if k == 0 then 0 else MultiplesUpTo(k - 1, interval) + if k % interval == 0 then 1 else 0
  }

  lemma {:induction false} MultiplesAreQuotient(k: nat, interval: nat)
    requires interval > 0
    ensures MultiplesUpTo(k, interval) == k / interval
  {
    if k == 0 {
      DivModUnique(0, 0, 0, interval);
    } else {
      MultiplesAreQuotient(k - 1, interval);
      var q, r := (k - 1) / interval, (k - 1) % interval;
      assert k - 1 == q * interval + r;
      if r + 1 == interval {
        Distribute(interval, q, 1);
        DivModUnique(k, q + 1, 0, interval);
      } else {
        DivModUnique(k, q, r + 1, interval);
      }
    }
  }

  lemma {:induction false} RefreshesCountMultiples(periods: nat, interval: nat, blocks: nat, m: nat)
    requires interval > 0 && 0 < m <= periods
    ensures var policy := Some(RefreshPredicate(true, periods, interval));
      RefreshesAfter(Sequential, periods, policy, blocks, m)
        == MultiplesUpTo(if m < periods then m - 1 else if periods >= 2 then periods - 2 else 0, interval) * blocks
  {
    var policy := Some(RefreshPredicate(true, periods, interval));
    if m == 1 {
      assert RefreshesAfter(Sequential, periods, policy, blocks, 0) == 0;
    } else {
      RefreshesCountMultiples(periods, interval, blocks, m - 1);
      if m < periods {
        Distribute(blocks, MultiplesUpTo(m - 2, interval), 1);
      }
    }
  }

  /** parameter_table.py intermediate: the period boundaries at which a block is refreshed. */
  function IntermediateBoundaries(mode: EchoMode, collective: bool, periods: nat, flag: nat): nat {
    if mode == Sequential && collective && flag > 0 && periods >= 2 then MultiplesUpTo(periods - 2, flag) else 0
  }

  /** parameter_table.py refresh_ct: both echoes, their intermediate boundaries and the final one. */
  function ModelRefreshes(mode: EchoMode, collective: bool, blocks: nat, periods: nat, flag: nat): nat {
    if collective then 2 * blocks * (1 + IntermediateBoundaries(mode, collective, periods, flag)) else 0
  }

  lemma ModelRefreshNumbers(mode: EchoMode, collective: bool, blocks: nat, periods: nat, flag: nat)
    requires mode == Sequential && collective ==> flag > 0
    ensures ModelRefreshes(mode, collective, blocks, periods, flag)
         == if !collective then 0
            else if mode == Tree || periods < 2 then 2 * blocks
            else 2 * blocks * (1 + (periods - 2) / flag)
  {
    if mode == Sequential && collective && periods >= 2 {
      MultiplesAreQuotient(periods - 2, flag);
    }
  }

  /** A collective sequential run refreshes every block floor((T-2)/interval) times. */
  lemma RefreshesOfRun(periods: nat, flag: nat, blocks: nat)
    requires flag > 0 && periods > 0
    ensures var policy := Some(RefreshPredicate(true, periods, EffectiveInterval(Sequential, true, flag)));
      RefreshesAfter(Sequential, periods, policy, blocks, periods)
        == (if periods >= 2 then (periods - 2) / flag else 0) * blocks
        == IntermediateBoundaries(Sequential, true, periods, flag) * blocks
  {
    RefreshesCountMultiples(periods, flag, blocks, periods);
    if periods >= 2 {
      MultiplesAreQuotient(periods - 2, flag);
    }
  }

  /** Tree runs and runs without collective refresh never refresh in between. */
  lemma {:induction false} NoIntermediateRefresh(mode: EchoMode, collective: bool, periods: nat, flag: nat,
      blocks: nat, m: nat)
    requires m <= periods && (mode == Tree || !collective)
    ensures var policy := Some(RefreshPredicate(collective, periods, EffectiveInterval(mode, collective, flag)));
      PolicyDefined(mode, periods, policy) && RefreshesAfter(mode, periods, policy, blocks, m) == 0
  {
    if m > 0 {
      NoIntermediateRefresh(mode, collective, periods, flag, blocks, m - 1);
    }
  }

  /** With the refreshes of the final boundary, a run refreshes as many ciphertexts as the table reports. */
  lemma RefreshesMatchModel(mode: EchoMode, collective: bool, periods: nat, flag: nat, blocks: nat)
    requires periods > 0 && (mode == Sequential && collective ==> flag > 0)
    ensures var policy := Some(RefreshPredicate(collective, periods, EffectiveInterval(mode, collective, flag)));
      && PolicyDefined(mode, periods, policy)
      && 2 * RefreshesAfter(mode, periods, policy, blocks, periods) + (if collective then 2 * blocks else 0)
           == ModelRefreshes(mode, collective, blocks, periods, flag)
  {
    if mode == Sequential && collective {
      RefreshesOfRun(periods, flag, blocks);
      Distribute(2 * blocks, 1, IntermediateBoundaries(mode, collective, periods, flag));
      Regroup(IntermediateBoundaries(mode, collective, periods, flag), blocks, 1);
    } else {
      NoIntermediateRefresh(mode, collective, periods, flag, blocks, periods);
    }
  }

  // ------------------------------------------------------------- depth of a run

  /** The depths of a run's tree are those of tree_depth, and the total's is L + 1. */
  lemma TreeEchoDepth(periods: nat)
    requires periods > 0
    ensures BalancedReduce(LeafDepths(periods), ComposeDepths) == TreeDepth(periods)
    ensures TreeDepth(periods).d == CeilLog2(periods) + 1
  {
    IndexSplitIsSizeSplit(LeafDepths(periods), LEAF_DEPTHS, ComposeDepths, 0, periods - 1);
    TreeDepthIsReduction(periods);
    TreeDepthIsLogarithmic(periods);
  }

  /** Without refreshes in between, value and total of m sequential periods have depth m. */
  lemma {:induction false} SequentialDepthIsLinear(periods: nat, policy: RefreshPolicy, m: nat)
    requires PolicyDefined(Sequential, periods, policy) && 0 < m <= periods
    requires forall p: nat :: p < periods ==> !RefreshedAt(Sequential, periods, policy, p)
    ensures StateDepths(Sequential, periods, policy, m) == (m, m)
  {
    if m > 1 {
      SequentialDepthIsLinear(periods, policy, m - 1);
    }
  }

  function Min(x: int, y: int): int {
    if x <= y then x else y
  }

  lemma RemainderSteps(p: nat, interval: nat)
    requires 0 < interval < p
    ensures (p - 1) % interval + 1 <= interval
    ensures p % interval == if (p - 1) % interval + 1 == interval then 0 else (p - 1) % interval + 1
  {
    var q, r := (p - 1) / interval, (p - 1) % interval;
    assert p - 1 == q * interval + r;
    if r + 1 == interval {
      Distribute(interval, q, 1);
      DivModUnique(p, q + 1, 0, interval);
    } else {
      DivModUnique(p, q, r + 1, interval);
    }
  }

  /** Refreshing at the multiples of the interval keeps the total at depth interval + 1. */
  lemma {:induction false} RefreshedDepths(periods: nat, interval: nat, m: nat)
    requires interval > 0 && 0 < m <= periods
    ensures var depths := StateDepths(Sequential, periods, Some(RefreshPredicate(true, periods, interval)), m);
      && depths.1 == Min(m, interval + 1)
      && (m < periods ==> depths.0 == if m <= interval then m else (m - 1) % interval)
  {
    if m > 1 {
      var p := m - 1;
      RefreshedDepths(periods, interval, p);
      if p < interval {
        SmallMod(p, interval);
      } else if p == interval {
        DivModUnique(p, 1, 0, interval);
      } else {
        RemainderSteps(p, interval);
      }
    }
  }

  /** The echo depth of a run, in every mode: what requirements() reports, and less with refreshes in between. */
  lemma EchoDepths(mode: EchoMode, collective: bool, periods: nat, flag: nat)
    requires periods > 0 && (mode == Sequential && collective ==> flag > 0)
    ensures var policy := Some(RefreshPredicate(collective, periods, EffectiveInterval(mode, collective, flag)));
      && PolicyDefined(mode, periods, policy)
      && EchoDepth(mode, periods, policy)
           == if mode == Tree then CeilLog2(periods) + 1 else if collective then Min(periods, flag + 1) else periods
  {
    if mode == Tree {
      TreeEchoDepth(periods);
    } else if collective {
      RefreshedDepths(periods, flag, periods);
    } else {
      var policy := Some(RefreshPredicate(false, periods, 0));
      SequentialDepthIsLinear(periods, policy, periods);
    }
  }
}
