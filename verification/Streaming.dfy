/**
 * Reception of one period (tally_inputs.go streamAndAggregatePeriodInputs and
 * restrictBenchmarkSubmissions): submissions are encoded in reused scratch buffers
 * and added into three accumulators per ciphertext, in place.
 */
module Streaming {
  import opened Modular
  import opened Matrices
  import opened Packing
  import opened Slots
  import opened Bgv
  import opened Schedules

  // ----------------------------------------------- packed meaning of a period

  /** The slot lies in the block of a voter below upTo. */
  predicate InBlockBelow(g: Grid, upTo: nat, i: nat, s: nat)
    requires g.blockSize > 0
  {
    g.ColOf(s) / g.blockSize < g.perRow && VoterAt(g, i, s) < upTo
  }

  function PayloadAt(g: Grid, choices: seq<int>, upTo: nat, i: nat, s: nat): int
    requires g.blockSize > 0 && upTo <= |choices|
  {
    if InBlockBelow(g, upTo, i, s) && choices[VoterAt(g, i, s)] == g.ColOf(s) % g.blockSize then 1 else 0
  }

  function PayloadVector(g: Grid, choices: seq<int>, upTo: nat, i: nat): seq<int>
    requires g.blockSize > 0 && upTo <= |choices|
  {
    seq(g.Slots(), s requires 0 <= s => PayloadAt(g, choices, upTo, i, s))
  }

  ghost function MaskAt(g: Grid, choices: seq<int>, other: seq<int>, n: nat, width: nat, upTo: nat, i: nat, s: nat): int
    requires g.blockSize > 0 && upTo <= n && ValidPeriod(choices, other, n, width)
  {
    if InBlockBelow(g, upTo, i, s) then SubmissionMask(choices[VoterAt(g, i, s)], other[VoterAt(g, i, s)]) else 0
  }

  ghost function MaskVector(g: Grid, choices: seq<int>, other: seq<int>, n: nat, width: nat, upTo: nat,
      i: nat): seq<int>
    requires g.blockSize > 0 && upTo <= n && ValidPeriod(choices, other, n, width)
  {
    seq(g.Slots(), s requires 0 <= s => MaskAt(g, choices, other, n, width, upTo, i, s))
  }

  /** The accumulator vectors are the packed payload and mask of periodPlain. */
  lemma PackedPeriod(g: Grid, choices: seq<int>, other: seq<int>, n: nat, width: nat, payload: seq<int>,
      mask: seq<int>, i: nat)
    requires g.Valid() && ValidPeriod(choices, other, n, width) && width <= g.blockSize
    requires IsPayload(choices, n, width, n, payload)
    requires IsMask(choices, other, n, width, g.blockSize, n, mask)
    ensures Packed(g, payload, width, n, i) == PayloadVector(g, choices, n, i)
    ensures Packed(g, mask, g.blockSize, n, i) == MaskVector(g, choices, other, n, width, n, i)
  {
    forall s: nat | s < g.Slots()
      ensures PackedAt(g, payload, width, n, i, s) == PayloadAt(g, choices, n, i, s)
      ensures PackedAt(g, mask, g.blockSize, n, i, s) == MaskAt(g, choices, other, n, width, n, i, s)
    {
      var voter, off := VoterAt(g, i, s), g.ColOf(s) % g.blockSize;
      if InBlockBelow(g, n, i, s) {
        assert choices[voter] < width;
        assert off < width ==> Entry(payload, width, voter, off) == if choices[voter] == off then 1 else 0;
        assert Entry(mask, g.blockSize, voter, off) == SubmissionMask(choices[voter], other[voter]);
      }
    }
  }

  // ------------------------------------------------------ the effect of one voter

  /** A vector that is x on the voter's block offset range and zero elsewhere. */
  predicate IsSpike(buffer: seq<int>, at: nat, len: nat, x: int) {
    forall s :: 0 <= s < |buffer| ==> buffer[s] == if at <= s < at + len then x else 0
  }

  lemma PayloadStep(g: Grid, choices: seq<int>, voter: nat, i: nat, buffer: seq<int>)
    requires g.Valid() && voter < |choices| && choices[voter] < g.blockSize && |buffer| == g.Slots()
    requires i == CiphertextOf(g, voter) ==>
      var choice := choices[voter];
      IsSpike(buffer, g.BlockStart(LocalOf(g, voter)) + if choice >= 0 then choice else 0, if choice >= 0 then 1 else 0,
              1)
    ensures PayloadVector(g, choices, voter + 1, i)
         == if i == CiphertextOf(g, voter) then Plus(PayloadVector(g, choices, voter, i), buffer)
            else PayloadVector(g, choices, voter, i)
  {
    forall s: nat | s < g.Slots()
      ensures PayloadAt(g, choices, voter + 1, i, s)
           == PayloadAt(g, choices, voter, i, s) + if i == CiphertextOf(g, voter) then buffer[s] else 0
    {
      VoterOfSlot(g, voter, i, s);
    }
  }

  lemma MaskStep(g: Grid, choices: seq<int>, other: seq<int>, n: nat, width: nat, voter: nat, i: nat, buffer: seq<int>)
    requires g.Valid() && voter < n && ValidPeriod(choices, other, n, width) && |buffer| == g.Slots()
    requires i == CiphertextOf(g, voter) ==>
      IsSpike(buffer, g.BlockStart(LocalOf(g, voter)), g.blockSize, SubmissionMask(choices[voter], other[voter]))
    ensures MaskVector(g, choices, other, n, width, voter + 1, i)
         == if i == CiphertextOf(g, voter) then Plus(MaskVector(g, choices, other, n, width, voter, i), buffer)
            else MaskVector(g, choices, other, n, width, voter, i)
  {
    forall s: nat | s < g.Slots()
      ensures MaskAt(g, choices, other, n, width, voter + 1, i, s)
           == MaskAt(g, choices, other, n, width, voter, i, s) + if i == CiphertextOf(g, voter) then buffer[s] else 0
    {
      VoterOfSlot(g, voter, i, s);
    }
  }

  // -------------------------------------------------------------- accumulators

  ghost predicate Apart(cts: seq<Ciphertext>) {
    forall i, j :: 0 <= i < j < |cts| ==> cts[i] != cts[j]
  }

  method NewAccumulator(ev: Evaluator, count: nat) returns (cts: seq<Ciphertext>)
    requires ev.Valid()
    ensures fresh(cts) && Apart(cts) && |cts| == count && AllAtDepth(cts, 0)
    ensures HoldsAll(ev, cts, seq(count, _ => Zeros(2 * ev.cols)))
  {
    cts := [];
    for i := 0 to count
      invariant |cts| == i && fresh(cts) && Apart(cts) && AllAtDepth(cts, 0)
      invariant forall j :: 0 <= j < i ==> ev.Holds(cts[j], Zeros(2 * ev.cols))
    {
      var ct := ev.EncryptNew(Zeros(2 * ev.cols));
      cts := cts + [ct];
    }
  }

  /** Encrypts the scratch buffer and adds it into one accumulator, in place. */
  method EncryptAndAccumulate(ev: Evaluator, dst: seq<Ciphertext>, ctIdx: nat, slots: seq<int>, ghost vs: seq<seq<int>>)
    requires ev.Valid() && HoldsAll(ev, dst, vs) && AllAtDepth(dst, 0) && Apart(dst) && ctIdx < |dst|
    requires |slots| == 2 * ev.cols
    modifies dst[ctIdx]
    ensures HoldsAll(ev, dst, vs[ctIdx := Plus(vs[ctIdx], slots)]) && AllAtDepth(dst, 0)
  {
    var input := ev.EncryptNew(slots);
    ev.AddInPlace(dst[ctIdx], input, vs[ctIdx], slots);
  }

  method FillBlock(buffer: array<int>, start: nat, len: nat, x: int)
    requires start + len <= buffer.Length
    modifies buffer
    ensures forall s :: 0 <= s < buffer.Length ==>
      buffer[s] == if start <= s < start + len then x else old(buffer[s])
  {
    for offset := 0 to len
      invariant forall s :: 0 <= s < buffer.Length ==>
        buffer[s] == if start <= s < start + offset then x else old(buffer[s])
    {
      buffer[start + offset] := x;
    }
  }

  // ------------------------------------------------------------ the reception loop

  function Payloads(g: Grid, choices: seq<int>, upTo: nat, count: nat): seq<seq<int>>
    requires g.blockSize > 0 && upTo <= |choices|
  {
    seq(count, i requires 0 <= i => PayloadVector(g, choices, upTo, i))
  }

  ghost function Masks(g: Grid, choices: seq<int>, other: seq<int>, n: nat, width: nat, upTo: nat,
      count: nat): seq<seq<int>>
    requires g.blockSize > 0 && upTo <= n && ValidPeriod(choices, other, n, width)
  {
    seq(count, i requires 0 <= i => MaskVector(g, choices, other, n, width, upTo, i))
  }

  lemma CiphertextExists(g: Grid, voter: nat, n: nat, count: nat)
    requires g.Valid() && voter < n <= count * g.PerCiphertext()
    ensures CiphertextOf(g, voter) < count
    ensures g.BlockStart(LocalOf(g, voter)) + g.blockSize <= g.Slots()
  {
    var ct, local := CiphertextOf(g, voter), LocalOf(g, voter);
    assert voter == ct * g.PerCiphertext() + local;
    if ct >= count { MulMonotone(count, ct, g.PerCiphertext(), g.PerCiphertext()); assert false; }
    BlockSlot(g, local, g.blockSize - 1);
  }

  ghost predicate Fits(ev: Evaluator, g: Grid, dst: seq<Ciphertext>, n: nat) {
    ev.Valid() && g.Valid() && g.cols == ev.cols && Apart(dst) && n <= |dst| * g.PerCiphertext()
  }

  /** Sets the voter's slot of the scratch buffer, adds it, and resets the slot. */
  method AccumulatePayload(ev: Evaluator, g: Grid, choices: seq<int>, voter: nat, dst: seq<Ciphertext>,
      slotBuf: array<int>)
    requires Fits(ev, g, dst, |choices|) && voter < |choices| && choices[voter] < g.blockSize
    requires slotBuf[..] == Zeros(g.Slots()) && HoldsAll(ev, dst, Payloads(g, choices, voter, |dst|))
    requires AllAtDepth(dst, 0)
    modifies dst, slotBuf
    ensures slotBuf[..] == Zeros(g.Slots()) && HoldsAll(ev, dst, Payloads(g, choices, voter + 1, |dst|))
    ensures AllAtDepth(dst, 0)
  {
    CiphertextExists(g, voter, |choices|, |dst|);
    var ctIdx := CiphertextOf(g, voter);
    var blockStart := g.BlockStart(LocalOf(g, voter));
    var choice := choices[voter];
    if choice >= 0 {
      slotBuf[blockStart + choice] := 1;
    }
    ghost var buffer := slotBuf[..];
    forall i | 0 <= i < |dst|
      ensures Payloads(g, choices, voter + 1, |dst|)[i]
           == var before := Payloads(g, choices, voter, |dst|)[i]; if i == ctIdx then Plus(before, buffer) else before
    {
      PayloadStep(g, choices, voter, i, buffer);
    }
    EncryptAndAccumulate(ev, dst, ctIdx, slotBuf[..], Payloads(g, choices, voter, |dst|));
    if choice >= 0 {
      slotBuf[blockStart + choice] := 0;
    }
  }

  method AccumulateMask(ev: Evaluator, g: Grid, choices: seq<int>, other: seq<int>, n: nat, ghost width: nat,
      voter: nat, dst: seq<Ciphertext>, rangeMaskBuf: array<int>)
    requires Fits(ev, g, dst, n) && ValidPeriod(choices, other, n, width) && voter < n
    requires rangeMaskBuf[..] == Zeros(g.Slots()) && HoldsAll(ev, dst, Masks(g, choices, other, n, width, voter, |dst|))
    requires AllAtDepth(dst, 0)
    modifies dst, rangeMaskBuf
    ensures AllAtDepth(dst, 0)
    ensures rangeMaskBuf[..] == Zeros(g.Slots())
    ensures HoldsAll(ev, dst, Masks(g, choices, other, n, width, voter + 1, |dst|))
  {
    CiphertextExists(g, voter, n, |dst|);
    var ctIdx := CiphertextOf(g, voter);
    var blockStart := g.BlockStart(LocalOf(g, voter));
    var mask := SubmissionMask(choices[voter], other[voter]);
    FillBlock(rangeMaskBuf, blockStart, g.blockSize, mask);
    ghost var buffer := rangeMaskBuf[..];
    ghost var before := Masks(g, choices, other, n, width, voter, |dst|);
    ghost var after := Masks(g, choices, other, n, width, voter + 1, |dst|);
    forall i | 0 <= i < |dst|
      ensures after[i] == if i == ctIdx then Plus(before[i], buffer) else before[i]
    {
      MaskStep(g, choices, other, n, width, voter, i, buffer);
    }
    EncryptAndAccumulate(ev, dst, ctIdx, rangeMaskBuf[..], before);
    FillBlock(rangeMaskBuf, blockStart, g.blockSize, 0);
  }

  /** Voters below upTo that send a submission. */
  function Submitted(choices: seq<int>, other: seq<int>, upTo: nat): nat
    requires upTo <= |choices| == |other|
  {
    if upTo == 0 then 0
    else Submitted(choices, other, upTo - 1)
         + if choices[upTo - 1] == NO_SUBMISSION && other[upTo - 1] == NO_SUBMISSION then 0 else 1
  }

  /** Everybody who is not silent in both components counts, the paired zero submission included. */
  lemma {:induction false} SubmittedIsCardinality(choices: seq<int>, other: seq<int>, upTo: nat)
    requires upTo <= |choices| == |other|
    ensures Submitted(choices, other, upTo) == |set v: nat | v < upTo && !(choices[v] == -1 && other[v] == -1)|
  {
    var now := set v: nat | v < upTo && !(choices[v] == -1 && other[v] == -1);
    if upTo > 0 {
      SubmittedIsCardinality(choices, other, upTo - 1);
      var before := set v: nat | v < upTo - 1 && !(choices[v] == -1 && other[v] == -1);
      if choices[upTo - 1] == -1 && other[upTo - 1] == -1 {
        assert now == before;
      } else {
        assert now == before + {upTo - 1};
      }
    } else {
      assert now == {};
    }
  }

  datatype PeriodAggregates = PeriodAggregates(
    candidateInputs: seq<Ciphertext>,
    delegationInputs: seq<Ciphertext>,
    sharedMasks: seq<Ciphertext>,
    inputCiphertextCount: nat)

  ghost predicate Separate(a: seq<Ciphertext>, b: seq<Ciphertext>) {
    forall i, j :: 0 <= i < |a| && 0 <= j < |b| ==> a[i] != b[j]
  }

  /** The accumulators after the voters below upTo have been received. */
  ghost predicate Received(ev: Evaluator, g: Grid, candidate: seq<int>, delegation: seq<int>, n: nat, b: nat,
      upTo: nat, count: nat, out: PeriodAggregates)
    requires ev.Valid() && g.blockSize > 0 && upTo <= n && ValidPeriod(candidate, delegation, n, b)
    reads out.candidateInputs, out.delegationInputs, out.sharedMasks
  {
    && HoldsAll(ev, out.candidateInputs, Payloads(g, candidate, upTo, count))
    && HoldsAll(ev, out.delegationInputs, Payloads(g, delegation, upTo, count))
    && HoldsAll(ev, out.sharedMasks, Masks(g, candidate, delegation, n, b, upTo, count))
    && AllAtDepth(out.candidateInputs, 0) && AllAtDepth(out.delegationInputs, 0) && AllAtDepth(out.sharedMasks, 0)
    && out.inputCiphertextCount == 3 * Submitted(candidate, delegation, upTo)
  }

  ghost predicate Disjoint3(out: PeriodAggregates) {
    && Apart(out.candidateInputs) && Apart(out.delegationInputs) && Apart(out.sharedMasks)
    && Separate(out.candidateInputs, out.delegationInputs)
    && Separate(out.candidateInputs, out.sharedMasks)
    && Separate(out.delegationInputs, out.sharedMasks)
  }

  /** A voter without a submission changes none of the packed vectors. */
  lemma AbsentVoter(ev: Evaluator, g: Grid, candidate: seq<int>, delegation: seq<int>, n: nat, b: nat, voter: nat,
      count: nat, out: PeriodAggregates)
    requires ev.Valid() && g.Valid() && voter < n && ValidPeriod(candidate, delegation, n, b)
    requires candidate[voter] == NO_SUBMISSION && delegation[voter] == NO_SUBMISSION
    requires Received(ev, g, candidate, delegation, n, b, voter, count, out)
    ensures Received(ev, g, candidate, delegation, n, b, voter + 1, count, out)
  {
    var none := Zeros(g.Slots());
    forall i | 0 <= i < count
      ensures PayloadVector(g, candidate, voter + 1, i) == PayloadVector(g, candidate, voter, i)
      ensures PayloadVector(g, delegation, voter + 1, i) == PayloadVector(g, delegation, voter, i)
      ensures MaskVector(g, candidate, delegation, n, b, voter + 1, i)
        == MaskVector(g, candidate, delegation, n, b, voter, i)
    {
    }
    assert Payloads(g, candidate, voter + 1, count) == Payloads(g, candidate, voter, count);
    assert Payloads(g, delegation, voter + 1, count) == Payloads(g, delegation, voter, count);
    assert Masks(g, candidate, delegation, n, b, voter + 1, count)
      == Masks(g, candidate, delegation, n, b, voter, count);
  }

  /** The two payloads of a submission. */
  method ReceiveChoices(ev: Evaluator, g: Grid, candidate: seq<int>, delegation: seq<int>, voter: nat,
      candidateInputs: seq<Ciphertext>, delegationInputs: seq<Ciphertext>, slotBuf: array<int>)
    requires Fits(ev, g, candidateInputs, |candidate|) && Fits(ev, g, delegationInputs, |delegation|)
    requires Separate(candidateInputs, delegationInputs) && voter < |candidate| == |delegation|
    requires candidate[voter] < g.blockSize && delegation[voter] < g.blockSize && slotBuf[..] == Zeros(g.Slots())
    requires HoldsAll(ev, candidateInputs, Payloads(g, candidate, voter, |candidateInputs|))
    requires HoldsAll(ev, delegationInputs, Payloads(g, delegation, voter, |delegationInputs|))
    requires AllAtDepth(candidateInputs, 0) && AllAtDepth(delegationInputs, 0)
    modifies candidateInputs, delegationInputs, slotBuf
    ensures slotBuf[..] == Zeros(g.Slots())
    ensures HoldsAll(ev, candidateInputs, Payloads(g, candidate, voter + 1, |candidateInputs|))
    ensures HoldsAll(ev, delegationInputs, Payloads(g, delegation, voter + 1, |delegationInputs|))
    ensures AllAtDepth(candidateInputs, 0) && AllAtDepth(delegationInputs, 0)
  {
    AccumulatePayload(ev, g, candidate, voter, candidateInputs, slotBuf);
    AccumulatePayload(ev, g, delegation, voter, delegationInputs, slotBuf);
  }

  /** One submission: two payloads and the shared block mask. */
  method ReceiveVoter(ev: Evaluator, g: Grid, candidate: seq<int>, delegation: seq<int>, n: nat, b: nat, voter: nat,
      out: PeriodAggregates, slotBuf: array<int>, rangeMaskBuf: array<int>)
    returns (next: PeriodAggregates)
    requires Fits(ev, g, out.candidateInputs, n) && voter < n && slotBuf != rangeMaskBuf
    requires |out.delegationInputs| == |out.sharedMasks| == |out.candidateInputs| && Disjoint3(out)
    requires ValidPeriod(candidate, delegation, n, b) && b <= g.blockSize && delegation[voter] < g.blockSize
    requires !(candidate[voter] == NO_SUBMISSION && delegation[voter] == NO_SUBMISSION)
    requires slotBuf[..] == Zeros(g.Slots()) && rangeMaskBuf[..] == Zeros(g.Slots())
    requires Received(ev, g, candidate, delegation, n, b, voter, |out.candidateInputs|, out)
    modifies out.candidateInputs, out.delegationInputs, out.sharedMasks, slotBuf, rangeMaskBuf
    ensures next == out.(inputCiphertextCount := out.inputCiphertextCount + 3)
    ensures slotBuf[..] == Zeros(g.Slots()) && rangeMaskBuf[..] == Zeros(g.Slots())
    ensures Received(ev, g, candidate, delegation, n, b, voter + 1, |out.candidateInputs|, next)
  {
    ReceiveChoices(ev, g, candidate, delegation, voter, out.candidateInputs, out.delegationInputs, slotBuf);
    AccumulateMask(ev, g, candidate, delegation, n, b, voter, out.sharedMasks, rangeMaskBuf);
    next := out.(inputCiphertextCount := out.inputCiphertextCount + 3);
  }

  /** The voters that one period of a run receives from. */
  function VotersToProcess(n: nat, period: nat, sampleVoters: nat): nat {
    if sampleVoters > 0 then (if period == 0 then sampleVoters else 0) else n
  }

  /** tally_inputs.go streamAndAggregatePeriodInputs. */
  method StreamAndAggregatePeriodInputs(ev: Evaluator, g: Grid, count: nat, b: nat, k: nat, n: nat, period: nat,
      candidatePeriods: seq<seq<int>>, delegationPeriods: seq<seq<int>>, sampleVoters: nat)
    returns (out: PeriodAggregates)
    requires ev.Valid() && g.Valid() && g.cols == ev.cols && n <= count * g.PerCiphertext()
    requires b <= g.blockSize && k <= g.blockSize && sampleVoters <= n
    requires period < |candidatePeriods| == |delegationPeriods|
    requires ValidPeriod(candidatePeriods[period], delegationPeriods[period], n, b)
    requires ValidPeriod(delegationPeriods[period], candidatePeriods[period], n, k)
    ensures Disjoint3(out)
    ensures fresh(out.candidateInputs) && fresh(out.delegationInputs) && fresh(out.sharedMasks)
    ensures Received(ev, g, candidatePeriods[period], delegationPeriods[period], n, b,
                     VotersToProcess(n, period, sampleVoters), count, out)
  {
    var candidate, delegation := candidatePeriods[period], delegationPeriods[period];
    var candidateInputs := NewAccumulator(ev, count);
    var delegationInputs := NewAccumulator(ev, count);
    var sharedMasks := NewAccumulator(ev, count);
    out := PeriodAggregates(candidateInputs, delegationInputs, sharedMasks, 0);
    NothingReceived(ev, g, candidate, delegation, n, b, count, out);
    out := ReceiveAll(ev, g, candidate, delegation, n, b, k, VotersToProcess(n, period, sampleVoters), out);
  }

  /** The loop over the voters of a period, with its two reused scratch buffers. */
  method ReceiveAll(ev: Evaluator, g: Grid, candidate: seq<int>, delegation: seq<int>, n: nat, b: nat, k: nat,
      voters: nat, start: PeriodAggregates)
    returns (out: PeriodAggregates)
    requires Fits(ev, g, start.candidateInputs, n) && voters <= n
    requires |start.delegationInputs| == |start.sharedMasks| == |start.candidateInputs| && Disjoint3(start)
    requires ValidPeriod(candidate, delegation, n, b) && ValidPeriod(delegation, candidate, n, k)
    requires b <= g.blockSize && k <= g.blockSize
    requires Received(ev, g, candidate, delegation, n, b, 0, |start.candidateInputs|, start)
    modifies start.candidateInputs, start.delegationInputs, start.sharedMasks
    ensures out == start.(inputCiphertextCount := out.inputCiphertextCount)
    ensures Received(ev, g, candidate, delegation, n, b, voters, |start.candidateInputs|, out)
  {
    out := start;
    var slotBuf := new int[2 * g.cols](_ => 0);
    var rangeMaskBuf := new int[2 * g.cols](_ => 0);
    for voter := 0 to voters
      invariant out == start.(inputCiphertextCount := out.inputCiphertextCount)
      invariant slotBuf[..] == Zeros(g.Slots()) && rangeMaskBuf[..] == Zeros(g.Slots())
      invariant Received(ev, g, candidate, delegation, n, b, voter, |start.candidateInputs|, out)
    {
      if candidate[voter] == NO_SUBMISSION && delegation[voter] == NO_SUBMISSION {
        AbsentVoter(ev, g, candidate, delegation, n, b, voter, |start.candidateInputs|, out);
        continue;
      }
      out := ReceiveVoter(ev, g, candidate, delegation, n, b, voter, out, slotBuf, rangeMaskBuf);
    }
  }

  lemma NothingReceived(ev: Evaluator, g: Grid, candidate: seq<int>, delegation: seq<int>, n: nat, b: nat,
      count: nat, out: PeriodAggregates)
    requires ev.Valid() && g.Valid() && g.cols == ev.cols && ValidPeriod(candidate, delegation, n, b)
    requires HoldsAll(ev, out.candidateInputs, seq(count, _ => Zeros(2 * ev.cols)))
    requires HoldsAll(ev, out.delegationInputs, seq(count, _ => Zeros(2 * ev.cols)))
    requires HoldsAll(ev, out.sharedMasks, seq(count, _ => Zeros(2 * ev.cols)))
    requires AllAtDepth(out.candidateInputs, 0) && AllAtDepth(out.delegationInputs, 0) && AllAtDepth(out.sharedMasks, 0)
    requires out.inputCiphertextCount == 0
    ensures Received(ev, g, candidate, delegation, n, b, 0, count, out)
  {
    forall i: nat
      ensures PayloadVector(g, candidate, 0, i) == Zeros(2 * ev.cols)
      ensures PayloadVector(g, delegation, 0, i) == Zeros(2 * ev.cols)
      ensures MaskVector(g, candidate, delegation, n, b, 0, i) == Zeros(2 * ev.cols)
    {
    }
    var zero := seq(count, _ => Zeros(2 * ev.cols));
    assert Payloads(g, candidate, 0, count) == zero;
    assert Payloads(g, delegation, 0, count) == zero;
    assert Masks(g, candidate, delegation, n, b, 0, count) == zero;
  }

  // ----------------------------------------------------------- benchmark schedules

  /** What restrictBenchmarkSubmissions leaves: real submissions of the sample in period 0. */
  ghost predicate Restricted(candidate: seq<seq<int>>, delegation: seq<seq<int>>, n: nat, samples: nat) {
    && |candidate| == |delegation|
    && forall p, v :: 0 <= p < |candidate| && 0 <= v < n && (p > 0 || v >= samples) ==>
         && |candidate[p]| == |delegation[p]| == n
         && candidate[p][v] == NO_SUBMISSION && delegation[p][v] == NO_SUBMISSION
  }

  ghost function Contents(rows: seq<array<int>>): seq<seq<int>>
    reads rows
  {
    seq(|rows|, p requires 0 <= p < |rows| reads rows => rows[p][..])
  }

  ghost predicate RowsApart(rows: seq<array<int>>) {
    forall p, q :: 0 <= p < q < |rows| ==> rows[p] != rows[q]
  }

  /** tally_inputs.go restrictBenchmarkSubmissions, on the rows in place. */
  method RestrictBenchmarkSubmissions(candidate: seq<array<int>>, delegation: seq<array<int>>, samples: nat)
    requires 0 < |candidate| == |delegation| && 0 < samples <= candidate[0].Length
    requires forall p :: 0 <= p < |candidate| ==> candidate[p].Length == delegation[p].Length == candidate[0].Length
    requires RowsApart(candidate + delegation)
    modifies candidate, delegation
    ensures Restricted(Contents(candidate), Contents(delegation), candidate[0].Length, samples)
    ensures forall v :: 0 <= v < samples ==>
      candidate[0][v] == old(candidate[0][v]) && delegation[0][v] == old(delegation[0][v])
  {
    RowsDistinct(candidate, delegation);
    for p := 0 to |candidate|
      invariant forall q, v :: p <= q < |candidate| && 0 <= v < candidate[0].Length ==>
        candidate[q][v] == old(candidate[q][v]) && delegation[q][v] == old(delegation[q][v])
      invariant forall q, v :: 0 <= q < p && 0 <= v < candidate[0].Length ==>
        && candidate[q][v] == (if q > 0 || v >= samples then NO_SUBMISSION else old(candidate[q][v]))
        && delegation[q][v] == (if q > 0 || v >= samples then NO_SUBMISSION else old(delegation[q][v]))
    {
      RestrictRow(candidate[p], delegation[p], p > 0, samples);
    }
  }

  lemma RowsDistinct(candidate: seq<array<int>>, delegation: seq<array<int>>)
    requires RowsApart(candidate + delegation) && |candidate| == |delegation|
    ensures forall p, q :: 0 <= p < |candidate| && 0 <= q < |delegation| ==> candidate[p] != delegation[q]
    ensures RowsApart(candidate) && RowsApart(delegation)
  {
    var all := candidate + delegation;
    forall p, q | 0 <= p < |candidate| && 0 <= q < |delegation| ensures candidate[p] != delegation[q] {
      assert all[p] == candidate[p] && all[|candidate| + q] == delegation[q];
    }
    forall p, q | 0 <= p < q < |candidate| ensures candidate[p] != candidate[q] {
      assert all[p] == candidate[p] && all[q] == candidate[q];
    }
    forall p, q | 0 <= p < q < |delegation| ensures delegation[p] != delegation[q] {
      assert all[|candidate| + p] == delegation[p] && all[|candidate| + q] == delegation[q];
    }
  }

  method RestrictRow(candidate: array<int>, delegation: array<int>, later: bool, samples: nat)
    requires candidate.Length == delegation.Length && candidate != delegation
    modifies candidate, delegation
    ensures forall v :: 0 <= v < candidate.Length ==>
      && candidate[v] == (if later || v >= samples then NO_SUBMISSION else old(candidate[v]))
      && delegation[v] == (if later || v >= samples then NO_SUBMISSION else old(delegation[v]))
  {
    for v := 0 to candidate.Length
      invariant forall u :: 0 <= u < candidate.Length ==>
        && candidate[u] == (if u < v && (later || u >= samples) then NO_SUBMISSION else old(candidate[u]))
        && delegation[u] == (if u < v && (later || u >= samples) then NO_SUBMISSION else old(delegation[u]))
    {
      if later || v >= samples {
        candidate[v], delegation[v] := NO_SUBMISSION, NO_SUBMISSION;
      }
    }
  }

  /** On restricted schedules the sampled reception is the reception of everybody. */
  lemma {:induction false} BenchmarkReceivesAll(ev: Evaluator, g: Grid, candidatePeriods: seq<seq<int>>,
      delegationPeriods: seq<seq<int>>, n: nat, b: nat, period: nat, samples: nat, voter: nat, count: nat,
      out: PeriodAggregates)
    requires ev.Valid() && g.Valid() && 0 < samples <= n && period < |candidatePeriods|
    requires Restricted(candidatePeriods, delegationPeriods, n, samples)
    requires ValidPeriod(candidatePeriods[period], delegationPeriods[period], n, b)
    requires VotersToProcess(n, period, samples) <= voter <= n
    requires Received(ev, g, candidatePeriods[period], delegationPeriods[period], n, b, voter, count, out)
    ensures Received(ev, g, candidatePeriods[period], delegationPeriods[period], n, b, n, count, out)
    decreases n - voter
  {
    if voter < n {
      AbsentVoter(ev, g, candidatePeriods[period], delegationPeriods[period], n, b, voter, count, out);
      BenchmarkReceivesAll(ev, g, candidatePeriods, delegationPeriods, n, b, period, samples, voter + 1, count, out);
    }
  }
}
