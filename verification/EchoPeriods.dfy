/**
 * The encrypted echo over the periods of an election (main.go, the period loop): the
 * candidate and delegation states consume the same masks, and the totals they leave
 * are the packed plaintext echo totals.
 */
module EchoPeriods {
  import opened Matrices
  import opened Packing
  import opened Bgv
  import opened Schedules
  import opened Streaming
  import opened EchoAlgebra
  import opened PeriodicEcho
  import opened Checks
  import opened PackedAlgebra

  // --------------------------------------------- the echo of a packed schedule

  function RangeVectors(g: Grid, n: nat, count: nat): seq<seq<int>>
    requires g.blockSize > 0
  {
    seq(count, i requires 0 <= i => Spread(g, Ones(n), g.blockSize, i))
  }

  /** The values of one period: one component's payloads, the shared masks, the ranges. */
  ghost function PackedPeriodOf(g: Grid, count: nat, own: seq<int>, candidate: seq<int>, delegation: seq<int>,
      n: nat, b: nat): Period
    requires g.blockSize > 0 && |own| == n && ValidPeriod(candidate, delegation, n, b)
  {
    Period(Payloads(g, own, n, count), Masks(g, candidate, delegation, n, b, n, count), RangeVectors(g, n, count))
  }

  /** The first m periods of one component. */
  ghost predicate IsHistory(h: seq<Period>, g: Grid, count: nat, own: seq<seq<int>>, candidate: seq<seq<int>>,
      delegation: seq<seq<int>>, n: nat, b: nat, m: nat)
    requires g.blockSize > 0 && ValidSchedule(candidate, delegation, n, b)
  {
    && |h| == m <= |candidate| && |own| == |candidate|
    && forall p :: 0 <= p < m ==>
         |own[p]| == n && ValidPeriod(candidate[p], delegation[p], n, b)
         && h[p] == PackedPeriodOf(g, count, own[p], candidate[p], delegation[p], n, b)
  }

  /** The mask does not depend on the order of the components. */
  lemma MaskSymmetric(c: int, d: int)
    requires ValidPair(c, d)
    ensures ValidPair(d, c) && SubmissionMask(c, d) == SubmissionMask(d, c)
  {
  }

  /** One component's schedule beside the other's; the two orders share their masks. */
  ghost predicate Component(own: seq<seq<int>>, other: seq<seq<int>>, candidate: seq<seq<int>>,
      delegation: seq<seq<int>>) {
    (own == candidate && other == delegation) || (own == delegation && other == candidate)
  }

  lemma PeriodAtSlot(g: Grid, count: nat, own: seq<int>, other: seq<int>, candidate: seq<int>, delegation: seq<int>,
      n: nat, width: nat, b: nat, i: nat, s: nat)
    requires g.Valid() && i < count && s < g.Slots()
    requires ValidPeriod(own, other, n, width) && ValidPeriod(candidate, delegation, n, b)
    requires (own == candidate && other == delegation) || (own == delegation && other == candidate)
    ensures var p := PackedPeriodOf(g, count, own, candidate, delegation, n, b);
      && At(p.x, i, s) == PayloadAt(g, own, n, i, s)
      && At(p.z, i, s)
        == (if InBlockBelow(g, n, i, s) then SubmissionMask(own[VoterAt(g, i, s)], other[VoterAt(g, i, s)]) else 0)
      && At(p.r, i, s) == (if InBlockBelow(g, n, i, s) then 1 else 0)
  {
    var p := PackedPeriodOf(g, count, own, candidate, delegation, n, b);
    assert p.x[i] == PayloadVector(g, own, n, i);
    assert p.z[i] == MaskVector(g, candidate, delegation, n, b, n, i);
    assert p.r[i] == Spread(g, Ones(n), g.blockSize, i);
    if InBlockBelow(g, n, i, s) {
      MaskSymmetric(candidate[VoterAt(g, i, s)], delegation[VoterAt(g, i, s)]);
    }
  }

  /** The recurrence keeps, in every slot, whether the voter's choice in force is that slot's. */
  lemma {:induction false} SlotEcho(h: seq<Period>, g: Grid, count: nat, own: seq<seq<int>>, other: seq<seq<int>>,
      candidate: seq<seq<int>>, delegation: seq<seq<int>>, n: nat, width: nat, b: nat, i: nat, s: nat, m: nat)
    requires g.Valid() && i < count && s < g.Slots() && m <= |h|
    requires ValidSchedule(candidate, delegation, n, b) && ValidSchedule(own, other, n, width)
    requires Component(own, other, candidate, delegation)
    requires IsHistory(h, g, count, own, candidate, delegation, n, b, |h|)
    ensures !InBlockBelow(g, n, i, s) ==> EchoValue(h, i, s, m) == 0 && EchoSum(h, i, s, m) == 0
    ensures InBlockBelow(g, n, i, s) ==>
      var voter, c := VoterAt(g, i, s), g.ColOf(s) % g.blockSize;
      && EchoValue(h, i, s, m) == (if Current(own, other, n, width, voter, m) == c then 1 else 0)
      && EchoSum(h, i, s, m) == EchoCount(own, other, n, width, voter, c, m)
  {
    if m > 0 {
      SlotEcho(h, g, count, own, other, candidate, delegation, n, width, b, i, s, m - 1);
      assert ValidPeriod(own[m - 1], other[m - 1], n, width) && ValidPeriod(candidate[m - 1], delegation[m - 1], n, b);
      PeriodAtSlot(g, count, own[m - 1], other[m - 1], candidate[m - 1], delegation[m - 1], n, width, b, i, s);
    }
  }

  /** After all periods the echo holds the packed plaintext totals. */
  lemma EchoIsPlain(h: seq<Period>, g: Grid, count: nat, own: seq<seq<int>>, other: seq<seq<int>>,
      candidate: seq<seq<int>>, delegation: seq<seq<int>>, n: nat, width: nat, b: nat, totals: seq<int>, i: nat)
    requires g.Valid() && i < count && width <= g.blockSize
    requires ValidSchedule(candidate, delegation, n, b) && ValidSchedule(own, other, n, width)
    requires Component(own, other, candidate, delegation)
    requires IsHistory(h, g, count, own, candidate, delegation, n, b, |h|) && |h| == |own|
    requires IsEchoTotals(own, other, n, width, |own|, totals)
    ensures SumVector(h, i, g.Slots()) == Packed(g, totals, width, n, i)
  {
    forall s: nat | s < g.Slots() ensures EchoSum(h, i, s, |h|) == PackedAt(g, totals, width, n, i, s) {
      SlotEcho(h, g, count, own, other, candidate, delegation, n, width, b, i, s, |h|);
      if InBlockBelow(g, n, i, s) {
        var voter, c := VoterAt(g, i, s), g.ColOf(s) % g.blockSize;
        if c < width {
          assert Entry(totals, width, voter, c) == EchoCount(own, other, n, width, voter, c, |own|);
        } else {
          NeverOutOfRange(own, other, n, width, voter, c, |own|);
        }
      }
    }
  }

  lemma {:induction false} NeverOutOfRange(own: seq<seq<int>>, other: seq<seq<int>>, n: nat, width: nat, voter: nat,
      c: nat, m: nat)
    requires ValidSchedule(own, other, n, width) && voter < n && m <= |own| && c >= width
    ensures EchoCount(own, other, n, width, voter, c, m) == 0
  {
    if m > 0 {
      NeverOutOfRange(own, other, n, width, voter, c, m - 1);
      CurrentInRange(own, other, n, width, voter, m);
    }
  }

  // ------------------------------------------------------------- the period loop

  /** Two states that share no ciphertext. */
  ghost predicate Independent(c: PeriodicEchoState, d: PeriodicEchoState)
    reads c, d, c.owned, d.owned
  {
    c != d && c.Valid() && d.Valid() && c.owned !! d.owned
  }

  ghost predicate Configured(s: PeriodicEchoState, ev: Evaluator, periods: nat, count: nat) {
    s.ev == ev && s.periods == periods && s.blocks == count
  }

  ghost predicate BothValid(candidate: seq<seq<int>>, delegation: seq<seq<int>>, n: nat, b: nat, k: nat, T: nat) {
    && |candidate| == |delegation| == T
    && ValidSchedule(candidate, delegation, n, b) && ValidSchedule(delegation, candidate, n, k)
  }

  /** Sampled reception happens only on restricted schedules. */
  ghost predicate SampleMatches(candidate: seq<seq<int>>, delegation: seq<seq<int>>, n: nat, sampleVoters: nat) {
    sampleVoters <= n && (sampleVoters > 0 ==> Restricted(candidate, delegation, n, sampleVoters))
  }

  /** What every period of a run is received with. */
  ghost predicate PeriodInputs(ev: Evaluator, g: Grid, count: nat, b: nat, k: nat, n: nat, T: nat,
      candidate: seq<seq<int>>, delegation: seq<seq<int>>, sampleVoters: nat, ranges: seq<seq<int>>) {
    && ev.Valid() && g.Valid() && g.cols == ev.cols && n <= count * g.PerCiphertext()
    && 0 < b <= g.blockSize && 0 < k <= g.blockSize
    && BothValid(candidate, delegation, n, b, k, T) && SampleMatches(candidate, delegation, n, sampleVoters)
    && ranges == RangeVectors(g, n, count)
  }

  /** Closes one period through a state, beside another state that is left alone. */
  method FeedBeside(s: PeriodicEchoState, other: PeriodicEchoState, inputs: seq<Ciphertext>, masks: seq<Ciphertext>,
      ranges: seq<seq<int>>, ghost p: Period)
    requires Independent(s, other) && s.received < s.periods && Supplied(s.ev, s.blocks, inputs, masks, ranges, p)
    requires Foreign(inputs, s.owned) && Foreign(masks, s.owned)
    requires forall ct :: ct in s.totals ==> ct in s.owned
    modifies s, s.totals
    ensures Independent(s, other) && s.history == old(s.history) + [p]
    ensures fresh(s.owned - old(s.owned)) && old(s.owned) <= s.owned
  {
    FeedPeriod(s, inputs, masks, ranges, p);
    assert other.Valid();
  }

  /** A received period on its way into two states: the masks serve both. */
  ghost predicate BothSupplied(c: PeriodicEchoState, d: PeriodicEchoState, a: PeriodAggregates, ranges: seq<seq<int>>,
      pc: Period, pd: Period)
    requires c.ev.Valid() && d.ev.Valid()
    reads c, d, a.candidateInputs, a.delegationInputs, a.sharedMasks
  {
    && Supplied(c.ev, c.blocks, a.candidateInputs, a.sharedMasks, ranges, pc)
    && Supplied(d.ev, d.blocks, a.delegationInputs, a.sharedMasks, ranges, pd)
    && Foreign(a.candidateInputs, c.owned) && Foreign(a.delegationInputs, c.owned) && Foreign(a.sharedMasks, c.owned)
    && Foreign(a.delegationInputs, d.owned) && Foreign(a.sharedMasks, d.owned)
  }

  method FeedCandidates(c: PeriodicEchoState, d: PeriodicEchoState, a: PeriodAggregates, ranges: seq<seq<int>>,
      ghost pc: Period, ghost pd: Period)
    requires Independent(c, d) && c.received < c.periods && BothSupplied(c, d, a, ranges, pc, pd)
    modifies c, c.totals
    ensures Independent(c, d) && c.history == old(c.history) + [pc]
    ensures fresh(c.owned - old(c.owned)) && old(c.owned) <= c.owned
    ensures Supplied(d.ev, d.blocks, a.delegationInputs, a.sharedMasks, ranges, pd)
  {
    TotalsAreOwned(c);
    FeedBeside(c, d, a.candidateInputs, a.sharedMasks, ranges, pc);
  }

  /** Closes one received period through both states. */
  method CloseBoth(c: PeriodicEchoState, d: PeriodicEchoState, a: PeriodAggregates, ranges: seq<seq<int>>,
      ghost pc: Period, ghost pd: Period)
    requires Independent(c, d) && c.received < c.periods && d.received < d.periods
    requires BothSupplied(c, d, a, ranges, pc, pd)
    modifies c, d, c.totals, d.totals
    ensures Independent(c, d)
    ensures c.history == old(c.history) + [pc] && d.history == old(d.history) + [pd]
    ensures fresh(c.owned - old(c.owned)) && fresh(d.owned - old(d.owned))
  {
    TotalsAreOwned(d);
    FeedCandidates(c, d, a, ranges, pc, pd);
    FeedBeside(d, c, a.delegationInputs, a.sharedMasks, ranges, pd);
  }

  /** Reception, in normal mode or sampled on restricted schedules, receives everybody. */
  method ReceivePeriod(ev: Evaluator, g: Grid, count: nat, b: nat, k: nat, n: nat, period: nat,
      candidate: seq<seq<int>>, delegation: seq<seq<int>>, sampleVoters: nat)
    returns (a: PeriodAggregates)
    requires ev.Valid() && g.Valid() && g.cols == ev.cols && n <= count * g.PerCiphertext()
    requires b <= g.blockSize && k <= g.blockSize
    requires period < |candidate| == |delegation| && SampleMatches(candidate, delegation, n, sampleVoters)
    requires ValidPeriod(candidate[period], delegation[period], n, b)
    requires ValidPeriod(delegation[period], candidate[period], n, k)
    ensures fresh(a.candidateInputs) && fresh(a.delegationInputs) && fresh(a.sharedMasks)
    ensures Received(ev, g, candidate[period], delegation[period], n, b, n, count, a)
  {
    a := StreamAndAggregatePeriodInputs(ev, g, count, b, k, n, period, candidate, delegation, sampleVoters);
    if sampleVoters > 0 {
      BenchmarkReceivesAll(ev, g, candidate, delegation, n, b, period, sampleVoters,
                           VotersToProcess(n, period, sampleVoters), count, a);
    }
  }

  lemma ReceivedSupplies(s: PeriodicEchoState, g: Grid, own: seq<int>, candidate: seq<int>, delegation: seq<int>,
      n: nat, b: nat, inputs: seq<Ciphertext>, masks: seq<Ciphertext>, ranges: seq<seq<int>>)
    requires s.ev.Valid() && g.Valid() && g.cols == s.ev.cols && |own| == n && ValidPeriod(candidate, delegation, n, b)
    requires HoldsAll(s.ev, inputs, Payloads(g, own, n, s.blocks))
    requires HoldsAll(s.ev, masks, Masks(g, candidate, delegation, n, b, n, s.blocks))
    requires ranges == RangeVectors(g, n, s.blocks) && AllAtDepth(inputs, 0) && AllAtDepth(masks, 0)
    ensures Supplied(s.ev, s.blocks, inputs, masks, ranges,
                     PackedPeriodOf(g, s.blocks, own, candidate, delegation, n, b))
  {
  }

  /** What has been received of a period supplies both states. */
  lemma ReceivedBoth(c: PeriodicEchoState, d: PeriodicEchoState, g: Grid, candidate: seq<int>, delegation: seq<int>,
      n: nat, b: nat, k: nat, a: PeriodAggregates, ranges: seq<seq<int>>)
    requires c.ev == d.ev && c.blocks == d.blocks && c.ev.Valid() && g.Valid() && g.cols == c.ev.cols
    requires ValidPeriod(candidate, delegation, n, b) && ValidPeriod(delegation, candidate, n, k)
    requires Received(c.ev, g, candidate, delegation, n, b, n, c.blocks, a) && ranges == RangeVectors(g, n, c.blocks)
    requires Foreign(a.candidateInputs, c.owned) && Foreign(a.delegationInputs, c.owned)
    requires Foreign(a.sharedMasks, c.owned)
    requires Foreign(a.delegationInputs, d.owned) && Foreign(a.sharedMasks, d.owned)
    ensures BothSupplied(c, d, a, ranges, PackedPeriodOf(g, c.blocks, candidate, candidate, delegation, n, b),
                         PackedPeriodOf(g, c.blocks, delegation, candidate, delegation, n, b))
  {
    ReceivedSupplies(c, g, candidate, candidate, delegation, n, b, a.candidateInputs, a.sharedMasks, ranges);
    ReceivedSupplies(d, g, delegation, candidate, delegation, n, b, a.delegationInputs, a.sharedMasks, ranges);
  }

  /** One period: stream it, then close it through both states. */
  method RunPeriod(ev: Evaluator, g: Grid, count: nat, b: nat, k: nat, n: nat, T: nat, period: nat,
      candidate: seq<seq<int>>, delegation: seq<seq<int>>, sampleVoters: nat, ranges: seq<seq<int>>,
      c: PeriodicEchoState, d: PeriodicEchoState, allChecks: bool)
    returns (received: nat, passed: bool)
    requires PeriodInputs(ev, g, count, b, k, n, T, candidate, delegation, sampleVoters, ranges) && period < T
    requires Independent(c, d) && Configured(c, ev, T, count) && Configured(d, ev, T, count)
    requires c.received == period == d.received
    modifies c, d, c.totals, d.totals
    ensures Independent(c, d)
    ensures c.history
      == old(c.history) + [PackedPeriodOf(g, count, candidate[period], candidate[period], delegation[period], n, b)]
    ensures d.history
      == old(d.history) + [PackedPeriodOf(g, count, delegation[period], candidate[period], delegation[period], n, b)]
    ensures fresh(c.owned - old(c.owned)) && fresh(d.owned - old(d.owned))
    ensures passed && received == 3 * Submitted(candidate[period], delegation[period], n)
  {
    assert ValidPeriod(candidate[period], delegation[period], n, b);
    assert ValidPeriod(delegation[period], candidate[period], n, k);
    var a := ReceivePeriod(ev, g, count, b, k, n, period, candidate, delegation, sampleVoters);
    received, passed := a.inputCiphertextCount, true;
    if allChecks {
      passed := CheckPeriod(ev, g, a, candidate[period], delegation[period], n, b, k, count);
    }
    ReceivedBoth(c, d, g, candidate[period], delegation[period], n, b, k, a, ranges);
    CloseBoth(c, d, a, ranges,
              PackedPeriodOf(g, count, candidate[period], candidate[period], delegation[period], n, b),
              PackedPeriodOf(g, count, delegation[period], candidate[period], delegation[period], n, b));
  }

  /** Submissions of the first m periods. */
  function SubmittedPeriods(candidate: seq<seq<int>>, delegation: seq<seq<int>>, n: nat, m: nat): nat
    requires m <= |candidate| == |delegation|
    requires forall p :: 0 <= p < |candidate| ==> |candidate[p]| == |delegation[p]| == n
  {
    if m == 0 then 0
    else SubmittedPeriods(candidate, delegation, n, m - 1) + Submitted(candidate[m - 1], delegation[m - 1], n)
  }

  /** What the period loop leaves behind. */
  datatype EchoRun = EchoRun(
    vCiphertexts: seq<Ciphertext>,
    dCiphertexts: seq<Ciphertext>,
    inputCiphertexts: nat,
    multiplications: nat,
    additions: nat,
    refreshes: nat)

  /** The totals of a finished state are the packed plaintext totals. */
  lemma FinishedTotals(s: PeriodicEchoState, cts: seq<Ciphertext>, g: Grid, own: seq<seq<int>>, other: seq<seq<int>>,
      candidate: seq<seq<int>>, delegation: seq<seq<int>>, n: nat, width: nat, b: nat, totals: seq<int>)
    requires s.ev.Valid() && g.Valid() && g.cols == s.ev.cols && width <= g.blockSize
    requires ValidSchedule(candidate, delegation, n, b) && ValidSchedule(own, other, n, width)
    requires Component(own, other, candidate, delegation)
    requires IsHistory(s.history, g, s.blocks, own, candidate, delegation, n, b, |own|)
    requires IsEchoTotals(own, other, n, width, |own|, totals)
    requires |cts| == s.blocks
    requires forall i :: 0 <= i < s.blocks ==> s.ev.Holds(cts[i], SumVector(s.history, i, 2 * s.ev.cols))
    ensures HoldsPacked(s.ev, g, cts, totals, width, n, s.blocks)
  {
    forall i | 0 <= i < s.blocks ensures s.ev.Holds(cts[i], Packed(g, totals, width, n, i)) {
      EchoIsPlain(s.history, g, s.blocks, own, other, candidate, delegation, n, width, b, totals, i);
    }
  }

  /** The totals of a state that has consumed all periods. */
  method PackedTotals(s: PeriodicEchoState, g: Grid, ghost own: seq<seq<int>>, ghost other: seq<seq<int>>,
      ghost candidate: seq<seq<int>>, ghost delegation: seq<seq<int>>, ghost n: nat, ghost width: nat, ghost b: nat,
      ghost totals: seq<int>)
    returns (cts: seq<Ciphertext>)
    requires s.Valid() && s.received == s.periods && g.Valid() && g.cols == s.ev.cols && width <= g.blockSize
    requires ValidSchedule(candidate, delegation, n, b) && ValidSchedule(own, other, n, width)
    requires Component(own, other, candidate, delegation)
    requires IsHistory(s.history, g, s.blocks, own, candidate, delegation, n, b, |own|)
    requires IsEchoTotals(own, other, n, width, |own|, totals)
    ensures HoldsPacked(s.ev, g, cts, totals, width, n, s.blocks)
    ensures AllAtDepth(cts, EchoDepth(s.mode, s.periods, s.shouldRefresh))
  {
    cts := s.Totals();
    FinishedTotals(s, cts, g, own, other, candidate, delegation, n, width, b, totals);
  }

  lemma HistoryExtends(h: seq<Period>, g: Grid, count: nat, own: seq<seq<int>>, candidate: seq<seq<int>>,
      delegation: seq<seq<int>>, n: nat, b: nat, m: nat)
    requires g.blockSize > 0 && ValidSchedule(candidate, delegation, n, b) && m < |candidate|
    requires IsHistory(h, g, count, own, candidate, delegation, n, b, m) && |own[m]| == n
    requires ValidPeriod(candidate[m], delegation[m], n, b)
    ensures IsHistory(h + [PackedPeriodOf(g, count, own[m], candidate[m], delegation[m], n, b)], g, count, own,
                      candidate, delegation, n, b, m + 1)
  {
  }

  /** Both states have consumed the first m periods. */
  ghost predicate Consumed(c: PeriodicEchoState, d: PeriodicEchoState, ev: Evaluator, g: Grid, count: nat,
      candidate: seq<seq<int>>, delegation: seq<seq<int>>, n: nat, b: nat, T: nat, m: nat)
    requires g.blockSize > 0 && ValidSchedule(candidate, delegation, n, b)
    reads c, d, c.owned, d.owned
  {
    && Independent(c, d) && Configured(c, ev, T, count) && Configured(d, ev, T, count)
    && IsHistory(c.history, g, count, candidate, candidate, delegation, n, b, m)
    && IsHistory(d.history, g, count, delegation, candidate, delegation, n, b, m)
  }

  /** One iteration of the loop over the periods. */
  method ConsumePeriod(ev: Evaluator, g: Grid, count: nat, b: nat, k: nat, n: nat, T: nat, period: nat,
      candidate: seq<seq<int>>, delegation: seq<seq<int>>, sampleVoters: nat, ranges: seq<seq<int>>,
      c: PeriodicEchoState, d: PeriodicEchoState, allChecks: bool)
    returns (received: nat, passed: bool)
    requires PeriodInputs(ev, g, count, b, k, n, T, candidate, delegation, sampleVoters, ranges) && period < T
    requires Consumed(c, d, ev, g, count, candidate, delegation, n, b, T, period)
    modifies c, d, c.totals, d.totals
    ensures Consumed(c, d, ev, g, count, candidate, delegation, n, b, T, period + 1)
    ensures fresh(c.owned - old(c.owned)) && fresh(d.owned - old(d.owned))
    ensures (forall ct :: ct in c.totals ==> ct in c.owned) && forall ct :: ct in d.totals ==> ct in d.owned
    ensures passed && received == 3 * Submitted(candidate[period], delegation[period], n)
  {
    HistoryExtends(c.history, g, count, candidate, candidate, delegation, n, b, period);
    HistoryExtends(d.history, g, count, delegation, candidate, delegation, n, b, period);
    received, passed := RunPeriod(ev, g, count, b, k, n, T, period, candidate, delegation, sampleVoters, ranges, c, d,
                                  allChecks);
    TotalsAreOwned(c);
    TotalsAreOwned(d);
  }

  /** The loop over the periods, on two new states. */
  method ConsumePeriods(ev: Evaluator, g: Grid, count: nat, b: nat, k: nat, n: nat, T: nat, candidate: seq<seq<int>>,
      delegation: seq<seq<int>>, sampleVoters: nat, ranges: seq<seq<int>>, c: PeriodicEchoState,
      d: PeriodicEchoState, allChecks: bool)
    returns (received: nat, passed: bool)
    requires PeriodInputs(ev, g, count, b, k, n, T, candidate, delegation, sampleVoters, ranges)
    requires Consumed(c, d, ev, g, count, candidate, delegation, n, b, T, 0) && c.owned == {} && d.owned == {}
    modifies c, d
    ensures Consumed(c, d, ev, g, count, candidate, delegation, n, b, T, T)
    ensures passed && received == 3 * SubmittedPeriods(candidate, delegation, n, T)
  {
    received, passed := 0, true;
    TotalsAreOwned(c);
    TotalsAreOwned(d);
    for period := 0 to T
      invariant Consumed(c, d, ev, g, count, candidate, delegation, n, b, T, period)
      invariant fresh(c.owned) && fresh(d.owned)
      invariant (forall ct :: ct in c.totals ==> ct in c.owned) && forall ct :: ct in d.totals ==> ct in d.owned
      invariant passed && received == 3 * SubmittedPeriods(candidate, delegation, n, period)
    {
      var inputs, periodPassed := ConsumePeriod(ev, g, count, b, k, n, T, period, candidate, delegation, sampleVoters,
                                                ranges, c, d, allChecks);
      received, passed := received + inputs, passed && periodPassed;
    }
  }

  /**
   * The period loop of main.go. For every schedule, mode and refresh policy the two
   * results hold the packed plaintext echo totals t and w.
   */
  method RunPeriods(ev: Evaluator, g: Grid, count: nat, b: nat, k: nat, n: nat, T: nat, candidate: seq<seq<int>>,
      delegation: seq<seq<int>>, sampleVoters: nat, ranges: seq<seq<int>>, mode: EchoMode, policy: RefreshPolicy,
      allChecks: bool, ghost t: seq<int>, ghost w: seq<int>)
    returns (run: EchoRun, passed: bool)
    requires PeriodInputs(ev, g, count, b, k, n, T, candidate, delegation, sampleVoters, ranges)
    requires 0 < count && T > 0 && PolicyDefined(mode, T, policy)
    requires IsEchoTotals(candidate, delegation, n, b, T, t) && IsEchoTotals(delegation, candidate, n, k, T, w)
    ensures HoldsPacked(ev, g, run.vCiphertexts, t, b, n, count) && HoldsPacked(ev, g, run.dCiphertexts, w, k, n, count)
    ensures passed
    ensures run.inputCiphertexts == 3 * SubmittedPeriods(candidate, delegation, n, T)
    ensures run.multiplications == 2 * MulsAfter(mode, T, count, T)
    ensures run.additions == 2 * AddsAfter(mode, T, count, T)
    ensures run.refreshes == 2 * RefreshesAfter(mode, T, policy, count, T)
    ensures AllAtDepth(run.vCiphertexts, EchoDepth(mode, T, policy))
    ensures AllAtDepth(run.dCiphertexts, EchoDepth(mode, T, policy))
  {
    var c, d, received;
    c, d, received, passed :=
      RunStates(ev, g, count, b, k, n, T, candidate, delegation, sampleVoters, ranges, mode, policy, allChecks);
    var vCts := PackedTotals(c, g, candidate, delegation, candidate, delegation, n, b, b, t);
    var dCts := PackedTotals(d, g, delegation, candidate, candidate, delegation, n, k, b, w);
    run := EchoRun(vCts, dCts, received, c.muls + d.muls, c.adds + d.adds, c.refreshes + d.refreshes);
  }

  /** Both echo states, after all periods. */
  method RunStates(ev: Evaluator, g: Grid, count: nat, b: nat, k: nat, n: nat, T: nat, candidate: seq<seq<int>>,
      delegation: seq<seq<int>>, sampleVoters: nat, ranges: seq<seq<int>>, mode: EchoMode, policy: RefreshPolicy,
      allChecks: bool)
    returns (c: PeriodicEchoState, d: PeriodicEchoState, received: nat, passed: bool)
    requires PeriodInputs(ev, g, count, b, k, n, T, candidate, delegation, sampleVoters, ranges)
    requires 0 < count && T > 0 && PolicyDefined(mode, T, policy)
    ensures Consumed(c, d, ev, g, count, candidate, delegation, n, b, T, T)
    ensures c.mode == d.mode == mode && c.shouldRefresh == d.shouldRefresh == policy
    ensures passed && received == 3 * SubmittedPeriods(candidate, delegation, n, T)
  {
    c := new PeriodicEchoState(T, count, mode, ev, policy);
    d := new PeriodicEchoState(T, count, mode, ev, policy);
    received, passed :=
      ConsumePeriods(ev, g, count, b, k, n, T, candidate, delegation, sampleVoters, ranges, c, d, allChecks);
  }
}
