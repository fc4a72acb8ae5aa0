/**
 * A run of main.go up to the majority selection (phase 4.3), for every modulus that the
 * program accepts: packing, the period loop, the final refresh boundary, the indicator
 * polynomial and its comparisons. What these comparisons find is decided exactly.
 */
module Selection {
  import opened Modular
  import opened ModularHelpers
  import opened Wrappers
  import opened Matrices
  import opened Packing
  import opened Bgv
  import opened Lagrange
  import opened LagrangeLimits
  import opened Schedules
  import opened Streaming
  import opened PeriodicEcho
  import opened EchoCosts
  import opened EchoPeriods
  import opened TallySpec
  import opened PackedAlgebra
  import opened PackedTally
  import opened PlainTally
  import opened Checks

  function BlockSize(b: nat, k: nat): nat {
    if b >= k then b else k
  }

  /** The options of a run that reach the echo. */
  datatype Options = Options(mode: EchoMode, collective: bool, refreshInterval: nat, sampleVoters: nat, allChecks: bool)

  ghost predicate ValidOptions(o: Options) {
    o.mode == Sequential && o.collective ==> o.refreshInterval > 0
  }

  /** What main.go demands of the parameters: a modulus above the number of periods, and room for a block. */
  ghost predicate Sized(ev: Evaluator, b: nat, k: nat, T: nat) {
    b > 0 && k > 0 && ev.Valid() && ev.cols / BlockSize(b, k) > 0 && T < ev.t < TWO_64
  }

  method RefreshAll(ev: Evaluator, g: Grid, cts: seq<Ciphertext>, ghost m: seq<int>, ghost width: nat, ghost n: nat)
    returns (out: seq<Ciphertext>, refreshes: nat)
    requires ev.Valid() && g.Valid() && HoldsPacked(ev, g, cts, m, width, n, |cts|)
    ensures HoldsPacked(ev, g, out, m, width, n, |cts|) && refreshes == |cts|
  {
    out, refreshes := [], 0;
    for i := 0 to |cts|
      invariant HoldsPacked(ev, g, out, m, width, n, i) && refreshes == i
    {
      var refreshed := ev.Refresh(cts[i]);
      out, refreshes := out + [refreshed], refreshes + 1;
    }
  }

  /** The final refresh boundary of both echo totals. */
  method FinalBoundary(ev: Evaluator, g: Grid, collective: bool, run: EchoRun, count: nat, n: nat, b: nat, k: nat,
      ghost t: seq<int>, ghost w: seq<int>)
    returns (after: EchoRun)
    requires ev.Valid() && g.Valid()
    requires HoldsPacked(ev, g, run.vCiphertexts, t, b, n, count)
    requires HoldsPacked(ev, g, run.dCiphertexts, w, k, n, count)
    ensures HoldsPacked(ev, g, after.vCiphertexts, t, b, n, count)
    ensures HoldsPacked(ev, g, after.dCiphertexts, w, k, n, count)
    ensures after.inputCiphertexts == run.inputCiphertexts && after.multiplications == run.multiplications
    ensures after.additions == run.additions && after.refreshes == run.refreshes + if collective then 2 * count else 0
  {
    after := run;
    if collective {
      var vCts, vRefreshes := RefreshAll(ev, g, run.vCiphertexts, t, b, n);
      var dCts, dRefreshes := RefreshAll(ev, g, run.dCiphertexts, w, k, n);
      after := EchoRun(vCts, dCts, run.inputCiphertexts, run.multiplications, run.additions,
                       run.refreshes + vRefreshes + dRefreshes);
    }
  }

  /** The references that the diagnostic mode materialises before the run; empty otherwise. */
  method EchoReferences(candidate: seq<seq<int>>, delegation: seq<seq<int>>, n: nat, b: nat, k: nat, T: nat,
      allChecks: bool, ghost t: seq<int>, ghost w: seq<int>)
    returns (v: seq<int>, d: seq<int>)
    requires T > 0 && b > 0 && k > 0 && BothValid(candidate, delegation, n, b, k, T)
    requires IsEchoTotals(candidate, delegation, n, b, T, t) && IsEchoTotals(delegation, candidate, n, k, T, w)
    ensures allChecks ==> v == t && d == w
  {
    v, d := [], [];
    if allChecks {
      v := PeriodicEchoTotalsPlain(candidate, delegation, n, b);
      d := PeriodicEchoTotalsPlain(delegation, candidate, n, k);
      EchoTotalsUnique(candidate, delegation, n, b, T, v, t);
      EchoTotalsUnique(delegation, candidate, n, k, T, d, w);
    }
  }

  /** The comparisons of the projected weights and of the echo totals. */
  method EarlyChecks(ev: Evaluator, g: Grid, qBase: seq<Ciphertext>, vCts: seq<Ciphertext>, dCts: seq<Ciphertext>,
      n: nat, b: nat, k: nat, T: nat, v: seq<int>, d: seq<int>, q: seq<nat>)
    returns (passed: bool)
    requires Shape(ev, g, n, |vCts|) && |qBase| == |dCts| == |vCts| && |q| == n && T < ev.t
    requires 0 < b <= g.blockSize && 0 < k <= g.blockSize && RowsBounded(v, n, b, T) && RowsBounded(d, n, k, T)
    requires HoldsSpread(ev, g, qBase, q, 1, |vCts|)
    requires HoldsPacked(ev, g, vCts, v, b, n, |vCts|) && HoldsPacked(ev, g, dCts, d, k, n, |vCts|)
    ensures passed <==> forall v :: 0 <= v < n ==> q[v] < ev.t
  {
    var weightsPassed := CheckBaseWeights(ev, g, qBase, q);
    var candidatePassed := CheckEchoTotals(ev, g, vCts, b, n, T, v);
    var delegationPassed := CheckEchoTotals(ev, g, dCts, k, n, T, d);
    passed := weightsPassed && candidatePassed && delegationPassed;
  }

  // --------------------------------------------------- 4.3 majority selection

  /** What phase 4.3 needs to pass: an invertible denominator throughout, and in diagnostic mode right selections. */
  ghost predicate SelectionPasses(T: nat, p: nat, allChecks: bool, t: seq<int>, w: seq<int>)
    requires T < p < TWO_64
  {
    if allChecks then SelectsRightly(T, p, t) && SelectsRightly(T, p, w) else CoefficientsOf(T, T + 1, p).Some?
  }

  /** Phase 4.3 with its comparisons, for every modulus. */
  method SelectionPhase(ev: Evaluator, g: Grid, vCts: seq<Ciphertext>, dCts: seq<Ciphertext>, n: nat, b: nat, k: nat,
      T: nat, allChecks: bool, v: seq<int>, d: seq<int>, ghost t: seq<int>, ghost w: seq<int>)
    returns (votes: seq<Ciphertext>, delegations: seq<Ciphertext>, passed: bool)
    requires Shape(ev, g, n, |vCts|) && |dCts| == |vCts| && T < ev.t < TWO_64
    requires 0 < b <= g.blockSize && 0 < k <= g.blockSize && |t| == n * b && |w| == n * k
    requires allChecks ==> v == t && d == w
    requires HoldsPacked(ev, g, vCts, t, b, n, |vCts|) && HoldsPacked(ev, g, dCts, w, k, n, |vCts|)
    ensures passed <==> SelectionPasses(T, ev.t, allChecks, t, w)
    ensures Interpolates(T, ev.t) && RowsBounded(t, n, b, T) ==> HoldsPacked(ev, g, votes, Selected(t, T), b, n, |vCts|)
    ensures Interpolates(T, ev.t) && RowsBounded(w, n, k, T) ==>
      HoldsPacked(ev, g, delegations, Selected(w, T), k, n, |vCts|)
  {
    var coefficients := LagrangeIndicatorCoefficients(T, ev.t);
    if coefficients.None? {
      return [], [], false;
    }
    var c := coefficients.value;
    votes := SelectMajorities(ev, g, vCts, c, T, t, b, n);
    delegations := SelectMajorities(ev, g, dCts, c, T, w, k, n);
    passed := true;
    if allChecks {
      var votesPassed := CheckIndicator(ev, g, votes, v, b, n, T, c);
      var delegationsPassed := CheckIndicator(ev, g, delegations, d, k, n, T, c);
      passed := votesPassed && delegationsPassed;
    }
    if RowsBounded(t, n, b, T) {
      BoundedTotals(t, n, b, T);
    }
    if RowsBounded(w, n, k, T) {
      BoundedTotals(w, n, k, T);
    }
  }

  /** An exact interpolation selects the totals of every schedule rightly. */
  lemma ExactSelectsRightly(T: nat, p: nat, m: seq<int>, n: nat, width: nat)
    requires T < p < TWO_64 && Interpolates(T, p) && RowsBounded(m, n, width, T)
    ensures SelectsRightly(T, p, m)
  {
    BoundedTotals(m, n, width, T);
    var c := CoefficientsOf(T, T + 1, p).value;
    forall i | 0 <= i < |m| ensures Eval(c, m[i]) % p == Indicator(T, m[i]) {
      TotalInRange(m, n, width, T, i);
    }
  }

  // ------------------------------------------------------------ up to phase 4.3

  /** The operations of the echo are those of the cost model. */
  ghost predicate CostsAsModelled(run: EchoRun, o: Options, blocks: nat, T: nat) {
    && run.multiplications == ModelMultiplications(o.mode, blocks, T)
    && run.additions == ModelAdditions(o.mode, blocks, T)
    && run.refreshes == ModelRefreshes(o.mode, o.collective, blocks, T, o.refreshInterval)
  }

  function Blocks(ev: Evaluator, n: nat, b: nat, k: nat): nat
    requires b > 0 && ev.cols / BlockSize(b, k) > 0
  {
    ComputePackingLayout(n, BlockSize(b, k), 2, ev.cols).ciphertextCount
  }

  /** The costs of a run as plain numbers of its dimensions and options. */
  lemma RunCosts(ev: Evaluator, n: nat, b: nat, k: nat, T: nat, o: Options, run: EchoRun)
    requires Sized(ev, b, k, T) && T > 0 && ValidOptions(o) && CostsAsModelled(run, o, Blocks(ev, n, b, k), T)
    ensures var perRow := ev.cols / (if b >= k then b else k);
      perRow > 0 && Blocks(ev, n, b, k) == (n + 2 * perRow - 1) / (2 * perRow)
    ensures var blocks := Blocks(ev, n, b, k);
      && run.multiplications == 2 * blocks * (if o.mode == Tree then 5 * T - 4 else 2 * T - 1)
      && run.additions == 4 * blocks * (if o.mode == Tree then 2 * (T - 1) else T - 1)
      && run.refreshes ==
           if !o.collective then 0
           else if o.mode == Tree || T < 2 then 2 * blocks
           else 2 * blocks * (1 + (T - 2) / o.refreshInterval)
  {
    LayoutCounts(n, BlockSize(b, k), 2, ev.cols);
    ModelNumbers(o.mode, Blocks(ev, n, b, k), T);
    ModelRefreshNumbers(o.mode, o.collective, Blocks(ev, n, b, k), T, o.refreshInterval);
  }

  /** The slots that a run uses: both components' blocks, on as many ciphertexts as the voters need. */
  function GridOfRun(ev: Evaluator, n: nat, b: nat, k: nat): Grid
    requires b > 0 && ev.cols / BlockSize(b, k) > 0
  {
    Grid(ev.cols, BlockSize(b, k), ComputePackingLayout(n, BlockSize(b, k), 2, ev.cols).votersPerRow)
  }

  lemma RunShape(ev: Evaluator, n: nat, b: nat, k: nat, T: nat)
    requires n > 0 && Sized(ev, b, k, T)
    ensures Shape(ev, GridOfRun(ev, n, b, k), n, Blocks(ev, n, b, k))
    ensures b <= GridOfRun(ev, n, b, k).blockSize && k <= GridOfRun(ev, n, b, k).blockSize
  {
    LayoutGrid(n, BlockSize(b, k), ev.cols);
    LayoutCounts(n, BlockSize(b, k), 2, ev.cols);
  }

  /** The period loop and the final boundary: packed echo totals, at the modelled cost. */
  method EchoTotalsPhase(ev: Evaluator, g: Grid, count: nat, n: nat, b: nat, k: nat, T: nat,
      candidate: seq<seq<int>>, delegation: seq<seq<int>>, o: Options, ghost t: seq<int>, ghost w: seq<int>)
    returns (run: EchoRun)
    requires Shape(ev, g, n, count) && 0 < b <= g.blockSize && 0 < k <= g.blockSize && T > 0 && ValidOptions(o)
    requires BothValid(candidate, delegation, n, b, k, T) && SampleMatches(candidate, delegation, n, o.sampleVoters)
    requires IsEchoTotals(candidate, delegation, n, b, T, t) && IsEchoTotals(delegation, candidate, n, k, T, w)
    ensures HoldsPacked(ev, g, run.vCiphertexts, t, b, n, count) && HoldsPacked(ev, g, run.dCiphertexts, w, k, n, count)
    ensures run.inputCiphertexts == 3 * SubmittedPeriods(candidate, delegation, n, T)
    ensures CostsAsModelled(run, o, count, T)
  {
    var ranges := LogicalRanges(ev, g, n, count);
    var interval := EffectiveInterval(o.mode, o.collective, o.refreshInterval);
    PolicyAlwaysDefined(o.mode, o.collective, T, o.refreshInterval);
    var passed;
    run, passed := RunPeriods(ev, g, count, b, k, n, T, candidate, delegation, o.sampleVoters, ranges, o.mode,
                              Some(RefreshPredicate(o.collective, T, interval)), o.allChecks, t, w);
    assert passed;
    CountsMatchModel(o.mode, count, T);
    RefreshesMatchModel(o.mode, o.collective, T, o.refreshInterval, count);
    run := FinalBoundary(ev, g, o.collective, run, count, n, b, k, t, w);
  }

  /**
   * A run up to its selections. It meets no failed assertion if and only if phase 4.3
   * passes and, in diagnostic mode, every voter's power is below the modulus.
   */
  method RunToSelection(ev: Evaluator, n: nat, b: nat, k: nat, T: nat, candidate: seq<seq<int>>,
      delegation: seq<seq<int>>, q: seq<nat>, o: Options, ghost t: seq<int>, ghost w: seq<int>)
    returns (qExt: seq<Ciphertext>, qBase: seq<Ciphertext>, votes: seq<Ciphertext>, delegations: seq<Ciphertext>,
             d: seq<int>, run: EchoRun, passed: bool)
    requires n > 0 && T > 0 && |q| == n && Sized(ev, b, k, T) && ValidOptions(o)
    requires BothValid(candidate, delegation, n, b, k, T) && SampleMatches(candidate, delegation, n, o.sampleVoters)
    requires IsEchoTotals(candidate, delegation, n, b, T, t) && IsEchoTotals(delegation, candidate, n, k, T, w)
    ensures Shape(ev, GridOfRun(ev, n, b, k), n, Blocks(ev, n, b, k))
    ensures HoldsSpread(ev, GridOfRun(ev, n, b, k), qExt, q, k, Blocks(ev, n, b, k))
    ensures HoldsSpread(ev, GridOfRun(ev, n, b, k), qBase, q, 1, Blocks(ev, n, b, k))
    ensures run.inputCiphertexts == 3 * SubmittedPeriods(candidate, delegation, n, T)
    ensures CostsAsModelled(run, o, Blocks(ev, n, b, k), T)
    ensures o.allChecks ==> d == w
    ensures passed <==>
      SelectionPasses(T, ev.t, o.allChecks, t, w) && (o.allChecks ==> forall v :: 0 <= v < n ==> q[v] < ev.t)
    ensures Interpolates(T, ev.t) ==>
      && HoldsPacked(ev, GridOfRun(ev, n, b, k), votes, Selected(t, T), b, n, Blocks(ev, n, b, k))
      && HoldsPacked(ev, GridOfRun(ev, n, b, k), delegations, Selected(w, T), k, n, Blocks(ev, n, b, k))
  {
    RunShape(ev, n, b, k, T);
    var g, count := GridOfRun(ev, n, b, k), Blocks(ev, n, b, k);
    var v;
    v, d := EchoReferences(candidate, delegation, n, b, k, T, o.allChecks, t, w);
    qExt, qBase := PrepareWeights(ev, g, q, k, count);
    run := EchoTotalsPhase(ev, g, count, n, b, k, T, candidate, delegation, o, t, w);
    EchoRowsBounded(candidate, delegation, n, b, t);
    EchoRowsBounded(delegation, candidate, n, k, w);
    var earlyPassed := true;
    if o.allChecks {
      earlyPassed := EarlyChecks(ev, g, qBase, run.vCiphertexts, run.dCiphertexts, n, b, k, T, v, d, q);
    }
    var selectionPassed;
    votes, delegations, selectionPassed := SelectionPhase(ev, g, run.vCiphertexts, run.dCiphertexts, n, b, k, T,
                                                          o.allChecks, v, d, t, w);
    passed := earlyPassed && selectionPassed;
  }

  // ------------------------------------------- which moduli the comparisons accept

  /** Voter 0 submits choice 0 in the last x periods, and nobody anything else. */
  function LateSchedule(n: nat, T: nat, x: nat): (s: seq<seq<int>>)
    ensures |s| == T
  {
    seq(T, p requires 0 <= p < T => seq(n, v => if v == 0 && p + x >= T then 0 else NO_SUBMISSION))
  }

  lemma {:induction false} LateTotal(n: nat, width: nat, T: nat, x: nat, m: nat)
    requires n > 0 && width > 0 && m <= T && x <= T
    requires ValidSchedule(LateSchedule(n, T, x), LateSchedule(n, T, x), n, width)
    ensures var s := LateSchedule(n, T, x);
      && Current(s, s, n, width, 0, m) == (if m + x > T then 0 else NO_SUBMISSION)
      && EchoCount(s, s, n, width, 0, 0, m) == if m + x > T then m + x - T else 0
  {
    if m > 0 {
      LateTotal(n, width, T, x, m - 1);
    }
  }

  /** Every number of periods is the echo total of some choice in some run. */
  lemma EveryTotalOccurs(n: nat, b: nat, k: nat, T: nat, x: nat)
    requires n > 0 && b > 0 && k > 0 && x <= T
    ensures BothValid(LateSchedule(n, T, x), LateSchedule(n, T, x), n, b, k, T)
    ensures var m := EchoTotalsMatrix(LateSchedule(n, T, x), LateSchedule(n, T, x), n, b, T);
      |m| > 0 && m[0] == x
  {
    var s := LateSchedule(n, T, x);
    LateTotal(n, b, T, x, T);
    FlatIndex(n, b, 0, 0);
  }

  /** Diagnostic runs on all schedules pass phase 4.3 if and only if the interpolation is exact. */
  lemma DiagnosticsDecide(n: nat, b: nat, k: nat, T: nat, p: nat)
    requires n > 0 && b > 0 && k > 0 && T < p < TWO_64
    ensures Interpolates(T, p) <==>
      forall candidate, delegation :: BothValid(candidate, delegation, n, b, k, T) ==>
        SelectionPasses(T, p, true, EchoTotalsMatrix(candidate, delegation, n, b, T),
                        EchoTotalsMatrix(delegation, candidate, n, k, T))
  {
    if Interpolates(T, p) {
      forall candidate, delegation | BothValid(candidate, delegation, n, b, k, T)
        ensures SelectionPasses(T, p, true, EchoTotalsMatrix(candidate, delegation, n, b, T),
                                EchoTotalsMatrix(delegation, candidate, n, k, T))
      {
        TotalsSelectedRightly(candidate, delegation, n, b, T, p);
        TotalsSelectedRightly(delegation, candidate, n, k, T, p);
      }
    } else {
      WrongInterpolationIsFound(n, b, k, T, p);
    }
  }

  lemma TotalsSelectedRightly(choices: seq<seq<int>>, other: seq<seq<int>>, n: nat, width: nat, T: nat, p: nat)
    requires T < p < TWO_64 && Interpolates(T, p) && ValidSchedule(choices, other, n, width) && |choices| == T
    ensures SelectsRightly(T, p, EchoTotalsMatrix(choices, other, n, width, T))
  {
    var m := EchoTotalsMatrix(choices, other, n, width, T);
    EchoTotalsMatrixIsTotals(choices, other, n, width, T);
    EchoRowsBounded(choices, other, n, width, m);
    ExactSelectsRightly(T, p, m, n, width);
  }

  /** Where the interpolation is wrong, some schedule makes a comparison of every diagnostic run fail. */
  lemma WrongInterpolationIsFound(n: nat, b: nat, k: nat, T: nat, p: nat)
    requires n > 0 && b > 0 && k > 0 && T < p < TWO_64 && !Interpolates(T, p)
    ensures exists x :: 0 <= x <= T && var s := LateSchedule(n, T, x);
                        BothValid(s, s, n, b, k, T) && !SelectsRightly(T, p, EchoTotalsMatrix(s, s, n, b, T))
  {
    var c := CoefficientsOf(T, T + 1, p);
    var x: nat := 0;
    if c.Some? && forall y :: 0 <= y <= T ==> Eval(c.value, y) % p == Indicator(T, y) {
      RightOnAllTotals(T, p);
      assert false;
    } else if c.Some? {
      x :| 0 <= x <= T && Eval(c.value, x) % p != Indicator(T, x);
    }
    EveryTotalOccurs(n, b, k, T, x);
  }

  /** With three periods, a prime below 2^63 survives all diagnostic runs if and only if it is at most 2^32. */
  lemma ThreePeriodDiagnostics(n: nat, b: nat, k: nat, p: nat)
    requires n > 0 && b > 0 && k > 0 && IsPrime(p) && 3 < p < TWO_63
    ensures p <= TWO_32 <==>
      forall candidate, delegation :: BothValid(candidate, delegation, n, b, k, 3) ==>
        SelectionPasses(3, p, true, EchoTotalsMatrix(candidate, delegation, n, b, 3),
                        EchoTotalsMatrix(delegation, candidate, n, k, 3))
  {
    ThreePeriods(p);
    DiagnosticsDecide(n, b, k, 3, p);
  }
}
