/**
 * The whole run of main.go: synthetic inputs, weight preparation, the period loop,
 * and the packed tally, against the plaintext references of test.go.
 */
module Election {
  import opened Modular
  import opened ModularHelpers
  import opened Wrappers
  import opened Matrices
  import opened Packing
  import opened Bgv
  import opened Lagrange
  import opened Schedules
  import opened CountExpansion
  import opened Streaming
  import opened PeriodicEcho
  import opened EchoCosts
  import opened EchoPeriods
  import opened TallySpec
  import opened PackedAlgebra
  import opened PackedTally
  import opened PlainTally
  import opened Checks
  import opened Selection
  import opened Workload
  import opened Ballots

  /** The comparisons of phases 4.4 to 4.6, which only read their ciphertexts. */
  method TallyChecks(ev: Evaluator, g: Grid, D: seq<seq<nat>>, weighted: seq<Ciphertext>, support: Ciphertext,
      dTilde: seq<Ciphertext>, dw: seq<Ciphertext>, weights: seq<Ciphertext>, n: nat, k: nat, T: nat, d: seq<int>,
      q: seq<nat>)
    returns (passed: bool)
    requires Shape(ev, g, n, |weighted|) && |q| == n && 0 < k <= g.blockSize
    requires |dTilde| == |dw| == |weights| == |weighted| && IsDelegation(D, n, k) && RowsBounded(d, n, k, T)
    requires HoldsPacked(ev, g, weighted, RowsScaled(Selected(d, T), k, q), k, n, |weighted|)
    requires ev.Holds(support, Repeated(g, Supports(d, q, k, T)))
    requires HoldsSpread(ev, g, dTilde, SelfPowers(d, q, k, T), 1, |weighted|)
    requires HoldsSpread(ev, g, dw, DelegatedPowers(D, d, q, k, T), 1, |weighted|)
    requires HoldsSpread(ev, g, weights, Weights(D, d, q, k, T), 1, |weighted|)
    ensures passed <==> IntermediatesAgree(D, d, q, k, T, ev.t)
  {
    var weightedPassed := CheckWeighted(ev, g, weighted, d, q, n, k, T);
    var supportPassed := CheckSupport(ev, g, support, d, q, n, k, T);
    var selfPassed := CheckSelfPower(ev, g, dTilde, d, q, n, k, T);
    var weightsPassed := CheckVoterWeights(ev, g, dw, weights, D, d, q, n, k, T);
    passed := weightedPassed && supportPassed && selfPassed && weightsPassed;
  }

  /** Phases 4.4 to 4.7: from packed selections to the tally slots, for any totals with bounded rows. */
  method TallyPhases(ev: Evaluator, g: Grid, D: seq<seq<nat>>, votes: seq<Ciphertext>, delegations: seq<Ciphertext>,
      qExt: seq<Ciphertext>, qBase: seq<Ciphertext>, n: nat, b: nat, k: nat, T: nat, allChecks: bool, d: seq<int>,
      q: seq<nat>, ghost t: seq<int>, ghost w: seq<int>)
    returns (result: Ciphertext, passed: bool)
    requires Shape(ev, g, n, |votes|) && |delegations| == |votes| && n == |q|
    requires 0 < b <= g.blockSize && 0 < k <= g.blockSize && IsDelegation(D, n, k) && Boolean(D)
    requires |t| == n * b && RowsBounded(w, n, k, T) && (allChecks ==> d == w)
    requires HoldsPacked(ev, g, votes, Selected(t, T), b, n, |votes|)
    requires HoldsPacked(ev, g, delegations, Selected(w, T), k, n, |votes|)
    requires HoldsSpread(ev, g, qExt, q, k, |votes|) && HoldsSpread(ev, g, qBase, q, 1, |votes|)
    ensures b <= g.cols && |result.slots| == 2 * g.cols
    ensures forall c :: 0 <= c < b ==>
      result.slots[c] == Tally(D, w, t, q, b, k, T, c) % ev.t == result.slots[g.cols + c]
    ensures passed <==> (allChecks ==> IntermediatesAgree(D, w, q, k, T, ev.t))
  {
    var weighted := WeightDelegations(ev, g, delegations, qExt, Selected(w, T), q, k);
    var support := DelegateSupport(ev, g, weighted, w, q, k, T);
    var baseSlotMask := BaseSlotMask(g);
    var dTilde := SelfPowerCiphertexts(ev, g, delegations, qBase, baseSlotMask, w, q, k, T);
    var dw, weights := VoterWeights(ev, g, D, support, dTilde, n, w, q, k, T);
    passed := true;
    if allChecks {
      passed := TallyChecks(ev, g, D, weighted, support, dTilde, dw, weights, n, k, T, d, q);
    }
    result := FinalTally(ev, g, weights, votes, b, D, w, t, q, k, T);
  }

  /** What the exactness of a run takes of the parameters: an interpolation that is right. */
  ghost predicate Parameters(ev: Evaluator, b: nat, k: nat, T: nat) {
    Sized(ev, b, k, T) && Interpolates(T, ev.t)
  }

  /** What the diagnostic comparisons of a run with an exact interpolation come to. */
  ghost predicate ChecksPass(D: seq<seq<nat>>, w: seq<int>, q: seq<nat>, k: nat, T: nat, t: nat)
    requires |w| == |q| * k && IsDelegation(D, |q|, k) && t > 0
  {
    (forall v :: 0 <= v < |q| ==> q[v] < t) && IntermediatesAgree(D, w, q, k, T, t)
  }

  /** The server side of a run: everything after the inputs exist. */
  method EncryptedTally(ev: Evaluator, n: nat, b: nat, k: nat, T: nat, D: seq<seq<nat>>, candidate: seq<seq<int>>,
      delegation: seq<seq<int>>, q: seq<nat>, o: Options, ghost t: seq<int>, ghost w: seq<int>)
    returns (decoded: seq<int>, run: EchoRun, passed: bool)
    requires n > 0 && T > 0 && |q| == n && Parameters(ev, b, k, T) && ValidOptions(o)
    requires IsDelegation(D, n, k) && Boolean(D)
    requires BothValid(candidate, delegation, n, b, k, T) && SampleMatches(candidate, delegation, n, o.sampleVoters)
    requires IsEchoTotals(candidate, delegation, n, b, T, t) && IsEchoTotals(delegation, candidate, n, k, T, w)
    ensures |decoded| == b
    ensures forall c :: 0 <= c < b ==> decoded[c] == Tally(D, w, t, q, b, k, T, c) % ev.t
    ensures run.inputCiphertexts == 3 * SubmittedPeriods(candidate, delegation, n, T)
    ensures CostsAsModelled(run, o, Blocks(ev, n, b, k), T)
    ensures passed <==> (o.allChecks ==> ChecksPass(D, w, q, k, T, ev.t))
  {
    RunShape(ev, n, b, k, T);
    EchoRowsBounded(candidate, delegation, n, b, t);
    EchoRowsBounded(delegation, candidate, n, k, w);
    ExactSelectsRightly(T, ev.t, t, n, b);
    ExactSelectsRightly(T, ev.t, w, n, k);
    var qExt, qBase, votes, delegations, d, selectionPassed;
    qExt, qBase, votes, delegations, d, run, selectionPassed :=
      RunToSelection(ev, n, b, k, T, candidate, delegation, q, o, t, w);
    var result, tallyPassed := TallyPhases(ev, GridOfRun(ev, n, b, k), D, votes, delegations, qExt, qBase, n, b, k, T,
                                           o.allChecks, d, q, t, w);
    decoded := result.slots[..b];
    passed := selectionPassed && tallyPassed;
  }

  /** Below the plaintext modulus and below 2^64 neither the slots nor the reference wrap. */
  lemma NothingWraps(D: seq<seq<nat>>, w: seq<int>, t: seq<int>, q: seq<nat>, n: nat, b: nat, k: nat, T: nat,
      modulus: nat, c: nat)
    requires |q| == n && OneVoterPerDelegate(D, n, k) && RowsBounded(w, n, k, T) && RowsBounded(t, n, b, T)
    requires SumOf(q, n) < modulus <= TWO_64 && c < b && 0 < modulus
    ensures var x := Tally(D, w, t, q, b, k, T, c); x % modulus == x && Wrap64(x) == x
  {
    TallyConserved(D, w, t, q, n, b, k, T);
    var x := Tally(D, w, t, q, b, k, T, c);
    assert 0 <= x < modulus;
    SmallMod(x, modulus);
    SmallMod(x, TWO_64);
  }

  /** The plaintext reference that the diagnostic mode selects. */
  method ExpectedFinal(D: seq<seq<nat>>, candidate: seq<seq<int>>, delegation: seq<seq<int>>, q: seq<nat>, n: nat,
      b: nat, k: nat, T: nat, allChecks: bool, ghost t: seq<int>, ghost w: seq<int>)
    returns (expected: seq<nat>)
    requires T > 0 && b > 0 && k > 0 && |q| == n && IsDelegation(D, n, k)
    requires BothValid(candidate, delegation, n, b, k, T)
    requires IsEchoTotals(candidate, delegation, n, b, T, t) && IsEchoTotals(delegation, candidate, n, k, T, w)
    ensures |expected| == b && forall c :: 0 <= c < b ==> expected[c] == Wrap64(Tally(D, w, t, q, b, k, T, c))
  {
    if allChecks {
      var v := PeriodicEchoTotalsPlain(candidate, delegation, n, b);
      var d := PeriodicEchoTotalsPlain(delegation, candidate, n, k);
      EchoTotalsUnique(candidate, delegation, n, b, T, v, t);
      EchoTotalsUnique(delegation, candidate, n, k, T, d, w);
      EchoRowsBounded(delegation, candidate, n, k, d);
      expected := DelegatedMaskedTallyPlain(D, d, v, q, n, b, k, T);
    } else {
      expected := DelegatedMaskedTallyFromPeriodsPlain(D, candidate, delegation, q, n, b, k, T, t, w);
    }
  }

  lemma OwnedIsBoolean(D: seq<seq<nat>>, n: nat, k: nat, owner: seq<nat>)
    requires OwnedBy(D, n, k, owner)
    ensures Boolean(D)
  {
    forall v, l | 0 <= v < |D| && 0 <= l < |D[v]| ensures D[v][l] <= 1 {
      assert D[v][l] == if v == owner[l] then 1 else 0;
    }
  }

  /** The decoded slots against the chosen reference. */
  method CheckedTally(ev: Evaluator, n: nat, b: nat, k: nat, T: nat, D: seq<seq<nat>>, candidate: seq<seq<int>>,
      delegation: seq<seq<int>>, q: seq<nat>, o: Options, ghost t: seq<int>, ghost w: seq<int>)
    returns (decoded: seq<int>, run: EchoRun, passed: bool)
    requires n > 0 && T > 0 && |q| == n && Parameters(ev, b, k, T) && ValidOptions(o)
    requires IsDelegation(D, n, k) && Boolean(D)
    requires BothValid(candidate, delegation, n, b, k, T) && SampleMatches(candidate, delegation, n, o.sampleVoters)
    requires IsEchoTotals(candidate, delegation, n, b, T, t) && IsEchoTotals(delegation, candidate, n, k, T, w)
    ensures |decoded| == b && forall c :: 0 <= c < b ==> decoded[c] == Tally(D, w, t, q, b, k, T, c) % ev.t
    ensures run.inputCiphertexts == 3 * SubmittedPeriods(candidate, delegation, n, T)
    ensures CostsAsModelled(run, o, Blocks(ev, n, b, k), T)
    ensures passed <==>
      && (o.allChecks ==> ChecksPass(D, w, q, k, T, ev.t))
      && forall c :: 0 <= c < b ==> Wrap64(Tally(D, w, t, q, b, k, T, c)) == Tally(D, w, t, q, b, k, T, c) % ev.t
  {
    var checksPassed;
    decoded, run, checksPassed := EncryptedTally(ev, n, b, k, T, D, candidate, delegation, q, o, t, w);
    var expected := ExpectedFinal(D, candidate, delegation, q, n, b, k, T, o.allChecks, t, w);
    var finalPassed := VerifyLeadingSlots(expected, decoded);
    passed := checksPassed && finalPassed;
  }

  /** With one voter per delegate and a power below the modulus nothing fails, and the tally is exact. */
  lemma CoveredTally(D: seq<seq<nat>>, w: seq<int>, t: seq<int>, q: seq<nat>, n: nat, b: nat, k: nat, T: nat,
      owner: seq<nat>, modulus: nat)
    requires |q| == n && OwnedBy(D, n, k, owner) && OneVoterPerDelegate(D, n, k)
    requires RowsBounded(w, n, k, T) && RowsBounded(t, n, b, T) && SumOf(q, n) < modulus <= TWO_64 && modulus > 0
    ensures Boolean(D) && ChecksPass(D, w, q, k, T, modulus)
    ensures forall c :: 0 <= c < b ==>
      Wrap64(Tally(D, w, t, q, b, k, T, c)) == Tally(D, w, t, q, b, k, T, c) % modulus == Tally(D, w, t, q, b, k, T, c)
  {
    OwnedIsBoolean(D, n, k, owner);
    PowerBelowModulusAgrees(D, w, q, k, T, modulus);
    forall c: nat | c < b
      ensures Wrap64(Tally(D, w, t, q, b, k, T, c)) == Tally(D, w, t, q, b, k, T, c) % modulus
        == Tally(D, w, t, q, b, k, T, c)
    {
      NothingWraps(D, w, t, q, n, b, k, T, modulus, c);
    }
  }

  // ------------------------------------------------------------- whole elections

  method SyntheticSchedule(n: nat, width: nat, T: nat, stream: nat -> nat)
    returns (counts: seq<nat>, choices: seq<seq<int>>)
    requires width > 0 && T > 0
    ensures |counts| == n * width && FullRows(counts, n, width, T) && Expands(counts, choices, n, width, T)
    ensures RowsDrawn(counts, n, width, T, stream, n)
    ensures forall row: nat :: row < n ==> MajorityRow(counts, width, row, T)
  {
    var votes := RandomVotingVector(n, width, T, stream);
    forall row: nat | row < n ensures MajorityRow(votes, width, row, T) {
      DrawnMatrixRow(votes, n, width, T, stream, row);
    }
    NaturalEntries(votes, n, width, T);
    counts := votes;
    assert forall row: nat :: row < n ==> MajorityRow(counts, width, row, T);
    assert FullRows(counts, n, width, T) by {
      forall v: nat | v < n ensures RowSum(counts, width, v, width) == T {
        assert MajorityRow(counts, width, v, T);
      }
    }
    var result := PeriodicChoicesFromCounts(counts, n, width, T);
    choices := result.value;
  }

  lemma NaturalEntries(votes: seq<int>, n: nat, width: nat, T: nat)
    requires |votes| == n * width && forall row: nat :: row < n ==> MajorityRow(votes, width, row, T)
    ensures forall i :: 0 <= i < |votes| ==> votes[i] >= 0
  {
    forall i | 0 <= i < |votes| ensures votes[i] >= 0 {
      EntryOfIndex(votes, n, width, i);
      assert MajorityRow(votes, width, i / width, T);
    }
  }

  /** The assertions on the drawn powers: no overflow, and a sum below the modulus. */
  method PowerCovered(q: seq<nat>, t: nat) returns (covered: bool)
    requires t <= TWO_64 && forall i :: 0 <= i < |q| ==> q[i] < TWO_64
    ensures covered <==> SumOf(q, |q|) < t
  {
    var sum := SumUint64(q);
    covered := sum.Some? && sum.value < t;
  }

  lemma {:induction false} EverybodySubmits(choices: seq<int>, other: seq<int>, upTo: nat)
    requires upTo <= |choices| == |other| && forall v :: 0 <= v < upTo ==> choices[v] >= 0
    ensures Submitted(choices, other, upTo) == upTo
  {
    if upTo > 0 {
      EverybodySubmits(choices, other, upTo - 1);
    }
  }

  lemma {:induction false} AllPeriodsSubmitted(candidate: seq<seq<int>>, delegation: seq<seq<int>>, n: nat, m: nat)
    requires m <= |candidate| == |delegation|
    requires forall p :: 0 <= p < |candidate| ==> |candidate[p]| == |delegation[p]| == n
    requires forall p, v :: 0 <= p < |candidate| && 0 <= v < n ==> candidate[p][v] >= 0
    ensures SubmittedPeriods(candidate, delegation, n, m) == n * m
  {
    if m > 0 {
      AllPeriodsSubmitted(candidate, delegation, n, m - 1);
      EverybodySubmits(candidate[m - 1], delegation[m - 1], n);
      Distribute(n, m - 1, 1);
    }
  }

  /** The inputs of a normal run, as its streams draw them. */
  ghost predicate DrawnInputs(n: nat, b: nat, k: nat, T: nat, qMax: nat, streams: nat -> nat -> nat,
      D: seq<seq<nat>>, owner: seq<nat>, q: seq<nat>, t: seq<int>, w: seq<int>)
    requires 0 < k < n && b > 0 && T > 0 && qMax > 0
  {
    && OwnedBy(D, n, k, owner) && owner == Shuffled(n, streams(0), k)[..k]
    && RowsDrawn(t, n, b, T, streams(1), n) && RowsDrawn(w, n, k, T, streams(2), n)
    && |q| == n && forall v :: 0 <= v < n ==> q[v] == 1 + streams(3)(v) % qMax
  }

  method DrawInputs(n: nat, b: nat, k: nat, T: nat, qMax: nat, streams: nat -> nat -> nat)
    returns (D: seq<seq<nat>>, q: seq<nat>, candidate: seq<seq<int>>, delegation: seq<seq<int>>,
             ghost owner: seq<nat>, ghost t: seq<int>, ghost w: seq<int>)
    requires 0 < k < n && b > 0 && T > 0 && 0 < qMax < TWO_64
    ensures DrawnInputs(n, b, k, T, qMax, streams, D, owner, q, t, w) && OneVoterPerDelegate(D, n, k)
    ensures forall v :: 0 <= v < n ==> q[v] < TWO_64
    ensures BothValid(candidate, delegation, n, b, k, T) && SubmittedPeriods(candidate, delegation, n, T) == n * T
    ensures IsEchoTotals(candidate, delegation, n, b, T, t) && IsEchoTotals(delegation, candidate, n, k, T, w)
    ensures forall row: nat :: row < n ==> MajorityRow(t, b, row, T)
  {
    D, owner := RandomDelegationMatrix(n, k, streams(0));
    var votes, delegations;
    votes, candidate := SyntheticSchedule(n, b, T, streams(1));
    delegations, delegation := SyntheticSchedule(n, k, T, streams(2));
    q := RandomVotingPower(n, qMax, streams(3));
    t, w := votes, delegations;
    ExpandThenEcho(votes, delegations, candidate, delegation, n, b, k, T, votes);
    ExpandThenEcho(delegations, votes, delegation, candidate, n, k, b, T, delegations);
    FullSchedulesValid(votes, delegations, candidate, delegation, n, b, k, T);
    AllPeriodsSubmitted(candidate, delegation, n, T);
  }

  /** What a covered run of drawn inputs prints, in terms of the draws. */
  lemma DrawnTally(n: nat, b: nat, k: nat, T: nat, qMax: nat, streams: nat -> nat -> nat, D: seq<seq<nat>>,
      owner: seq<nat>, q: seq<nat>, t: seq<int>, w: seq<int>, decoded: seq<int>)
    requires 0 < k < n && b > 0 && T > 0 && qMax > 0 && DrawnInputs(n, b, k, T, qMax, streams, D, owner, q, t, w)
    requires OneVoterPerDelegate(D, n, k) && RowsBounded(t, n, b, T) && RowsBounded(w, n, k, T)
    requires forall row: nat :: row < n ==> MajorityRow(t, b, row, T)
    requires |decoded| == b && forall c :: 0 <= c < b ==> decoded[c] == Tally(D, w, t, q, b, k, T, c)
    ensures forall c :: 0 <= c < b ==>
      decoded[c] == PowerOf(q, Cast(owner, Choices(w, n, k, T), Choices(t, n, b, T)), c, n)
    ensures T % 2 == 1 ==> forall c :: 0 <= c < b ==>
      decoded[c] == PowerOf(q, DrawnCast(n, b, k, T, streams(0), streams(1), streams(2)), c, n)
    ensures SumOf(decoded, b) <= SumOf(q, n)
    ensures T % 2 == 1 || b == 1 ==> SumOf(decoded, b) == SumOf(q, n)
  {
    forall c: nat | c < b
      ensures decoded[c] == PowerOf(q, Cast(owner, Choices(w, n, k, T), Choices(t, n, b, T)), c, n)
      ensures T % 2 == 1 ==> decoded[c] == PowerOf(q, DrawnCast(n, b, k, T, streams(0), streams(1), streams(2)), c, n)
    {
      TallyByBallots(D, owner, w, t, q, b, k, T, Choices(w, n, k, T), Choices(t, n, b, T), c);
      if T % 2 == 1 {
        DrawnChoices(w, n, k, T, streams(2));
        DrawnChoices(t, n, b, T, streams(1));
        TallyByBallots(D, owner, w, t, q, b, k, T, MajorityColumns(n, k, T, streams(2)),
                       MajorityColumns(n, b, T, streams(1)), c);
        CastIsDrawn(D, owner, n, b, k, T, streams(0), streams(1), streams(2));
      }
    }
    if T % 2 == 1 || b == 1 {
      forall v: nat | v < n ensures RowSum(Selected(t, T), b, v, b) == 1 {
        MajoritySelects(t, n, b, T, v);
      }
    }
    TallyConserved(D, w, t, q, n, b, k, T);
    SumOfTally(D, w, t, q, b, k, T, decoded, b);
  }

  /**
   * A normal run: everybody submits in every period, so the echo gives the generated
   * counts back. It stops at the assertion on the total power, and passes every check
   * otherwise. With an odd number of periods the printed tally is, candidate by candidate,
   * the power of the voters whose drawn delegate sits on a voter that drew the candidate.
   */
  method RunElection(ev: Evaluator, n: nat, b: nat, k: nat, T: nat, qMax: nat, o: Options, streams: nat -> nat -> nat)
    returns (decoded: seq<int>, run: EchoRun, passed: bool, q: seq<nat>, D: seq<seq<nat>>, ghost owner: seq<nat>,
             ghost t: seq<int>, ghost w: seq<int>)
    requires 0 < k < n && T > 0 && 0 < qMax < TWO_64 && Parameters(ev, b, k, T) && ValidOptions(o)
    requires o.sampleVoters == 0
    ensures DrawnInputs(n, b, k, T, qMax, streams, D, owner, q, t, w)
    ensures passed <==> SumOf(q, n) < ev.t
    ensures passed ==> run.inputCiphertexts == 3 * (n * T) && CostsAsModelled(run, o, Blocks(ev, n, b, k), T)
    ensures passed ==> |decoded| == b && forall c :: 0 <= c < b ==>
      && decoded[c] == Tally(D, w, t, q, b, k, T, c)
      && decoded[c] == PowerOf(q, Cast(owner, Choices(w, n, k, T), Choices(t, n, b, T)), c, n)
    ensures passed && T % 2 == 1 ==> forall c :: 0 <= c < b ==>
      decoded[c] == PowerOf(q, DrawnCast(n, b, k, T, streams(0), streams(1), streams(2)), c, n)
    ensures passed ==> SumOf(decoded, b) <= SumOf(q, n)
    ensures passed && (T % 2 == 1 || b == 1) ==> SumOf(decoded, b) == SumOf(q, n)
  {
    var candidate, delegation;
    D, q, candidate, delegation, owner, t, w := DrawInputs(n, b, k, T, qMax, streams);
    var covered := PowerCovered(q, ev.t);
    if !covered {
      decoded, run, passed := [], EchoRun([], [], 0, 0, 0, 0), false;
      return;
    }
    EchoRowsBounded(candidate, delegation, n, b, t);
    EchoRowsBounded(delegation, candidate, n, k, w);
    CoveredTally(D, w, t, q, n, b, k, T, owner, ev.t);
    decoded, run, passed := CheckedTally(ev, n, b, k, T, D, candidate, delegation, q, o, t, w);
    DrawnTally(n, b, k, T, qMax, streams, D, owner, q, t, w, decoded);
  }

  lemma {:induction false} SumOfTally(D: seq<seq<nat>>, w: seq<int>, t: seq<int>, q: seq<int>, b: nat, k: nat,
      T: nat, decoded: seq<int>, c: nat)
    requires |w| == |q| * k && |t| == |q| * b && IsDelegation(D, |q|, k) && c <= b == |decoded|
    requires forall c :: 0 <= c < b ==> decoded[c] == Tally(D, w, t, q, b, k, T, c)
    ensures SumOf(decoded, c) == ScaledByColumn(Selected(t, T), b, Weights(D, w, q, k, T), c)
  {
    if c > 0 {
      SumOfTally(D, w, t, q, b, k, T, decoded, c - 1);
    }
  }

  // ------------------------------------------------------------ the benchmark

  /** Schedules in which exactly the sample submits, in period 0 only. */
  ghost predicate Sampled(candidate: seq<seq<int>>, delegation: seq<seq<int>>, n: nat, samples: nat) {
    && samples <= n && 0 < |candidate| && Restricted(candidate, delegation, n, samples)
    && (forall p :: 0 <= p < |candidate| ==> |candidate[p]| == |delegation[p]| == n)
    && forall v :: 0 <= v < samples ==> candidate[0][v] >= 0 && delegation[0][v] >= 0
  }

  lemma {:induction false} SampleSubmits(candidate: seq<seq<int>>, delegation: seq<seq<int>>, n: nat, samples: nat,
      p: nat, upTo: nat)
    requires Sampled(candidate, delegation, n, samples) && p < |candidate| && upTo <= n
    ensures Submitted(candidate[p], delegation[p], upTo)
         == if p > 0 then 0 else if upTo <= samples then upTo else samples
  {
    if upTo > 0 {
      SampleSubmits(candidate, delegation, n, samples, p, upTo - 1);
    }
  }

  lemma {:induction false} SampleSubmitsOnce(candidate: seq<seq<int>>, delegation: seq<seq<int>>, n: nat,
      samples: nat, m: nat)
    requires Sampled(candidate, delegation, n, samples) && m <= |candidate|
    ensures SubmittedPeriods(candidate, delegation, n, m) == if m == 0 then 0 else samples
  {
    if m > 0 {
      SampleSubmitsOnce(candidate, delegation, n, samples, m - 1);
      SampleSubmits(candidate, delegation, n, samples, m - 1, n);
    }
  }

  /** A sampled voter's choice echoes through all periods; the others never have one. */
  lemma {:induction false} SampledEcho(candidate: seq<seq<int>>, delegation: seq<seq<int>>, n: nat, b: nat,
      samples: nat, v: nat, c: nat, m: nat)
    requires Sampled(candidate, delegation, n, samples) && ValidSchedule(candidate, delegation, n, b)
    requires v < n && m <= |candidate|
    ensures Current(candidate, delegation, n, b, v, m)
         == if m > 0 && v < samples then candidate[0][v] else NO_SUBMISSION
    ensures EchoCount(candidate, delegation, n, b, v, c, m) == if v < samples && candidate[0][v] == c then m else 0
  {
    if m > 0 {
      SampledEcho(candidate, delegation, n, b, samples, v, c, m - 1);
      assert ValidPeriod(candidate[m - 1], delegation[m - 1], n, b);
    }
  }

  /** Exactly the sampled voters select a candidate. */
  lemma SampleSelects(candidate: seq<seq<int>>, delegation: seq<seq<int>>, n: nat, b: nat, samples: nat, t: seq<int>,
      v: nat)
    requires Sampled(candidate, delegation, n, samples) && ValidSchedule(candidate, delegation, n, b) && v < n
    requires IsEchoTotals(candidate, delegation, n, b, |candidate|, t)
    ensures RowSum(Selected(t, |candidate|), b, v, b) == if v < samples then 1 else 0
  {
    var T := |candidate|;
    var sel := if v < samples then candidate[0][v] else NO_SUBMISSION;
    assert ValidPeriod(candidate[0], delegation[0], n, b);
    forall j: nat | j < b ensures Entry(t, b, v, j) > T / 2 <==> j == sel {
      SampledEcho(candidate, delegation, n, b, samples, v, j, T);
    }
    SelectedRowSum(t, n, b, T, v, sel, b);
  }

  lemma {:induction false} SampleWeighs(m: seq<int>, width: nat, f: seq<int>, samples: nat, n: nat)
    requires |m| == |f| * width && samples <= |f| && n <= |f|
    requires forall v: nat :: v < |f| ==> RowSum(m, width, v, width) == if v < samples then 1 else 0
    ensures ScaledByRow(m, width, f, width, n) == SumOf(f, if n <= samples then n else samples)
  {
    if n > 0 {
      SampleWeighs(m, width, f, samples, n - 1);
    }
  }

  /** The tally of sampled schedules hands out exactly the weights of the sampled voters. */
  lemma SampledTally(D: seq<seq<nat>>, w: seq<int>, t: seq<int>, q: seq<int>, b: nat, k: nat,
      candidate: seq<seq<int>>, delegation: seq<seq<int>>, samples: nat, decoded: seq<int>)
    requires Sampled(candidate, delegation, |q|, samples) && ValidSchedule(candidate, delegation, |q|, b)
    requires IsEchoTotals(candidate, delegation, |q|, b, |candidate|, t)
    requires NonNegative(q) && OneVoterPerDelegate(D, |q|, k) && |decoded| == b
    requires RowsBounded(w, |q|, k, |candidate|) && RowsBounded(t, |q|, b, |candidate|)
    requires forall c :: 0 <= c < b ==> decoded[c] == Tally(D, w, t, q, b, k, |candidate|, c)
    ensures SumOf(decoded, b) <= SumOf(q, |q|)
    ensures SumOf(decoded, b) == SumOf(Weights(D, w, q, k, |candidate|), samples)
  {
    var T := |candidate|;
    var f := Weights(D, w, q, k, T);
    forall v: nat | v < |q| ensures RowSum(Selected(t, T), b, v, b) == if v < samples then 1 else 0 {
      SampleSelects(candidate, delegation, |q|, b, samples, t, v);
    }
    SumOfTally(D, w, t, q, b, k, T, decoded, b);
    ScaledSumsAgree(Selected(t, T), b, f, b);
    SampleWeighs(Selected(t, T), b, f, samples, |q|);
    TallyConserved(D, w, t, q, |q|, b, k, T);
  }

  /** Restricts the schedules in place and reads them. */
  method BenchmarkSchedules(candidate: seq<array<int>>, delegation: seq<array<int>>, n: nat, b: nat, k: nat,
      samples: nat)
    returns (cs: seq<seq<int>>, ds: seq<seq<int>>)
    requires 0 < |candidate| == |delegation| && RowsApart(candidate + delegation) && 0 < samples <= n
    requires forall p :: 0 <= p < |candidate| ==> candidate[p].Length == delegation[p].Length == n
    requires forall v :: 0 <= v < n ==> 0 <= candidate[0][v] < b && 0 <= delegation[0][v] < k
    modifies candidate, delegation
    ensures cs == Contents(candidate) && ds == Contents(delegation) && BothValid(cs, ds, n, b, k, |candidate|)
    ensures Sampled(cs, ds, n, samples)
    ensures forall v :: 0 <= v < samples ==>
      candidate[0][v] == old(candidate[0][v]) && delegation[0][v] == old(delegation[0][v])
  {
    RestrictBenchmarkSubmissions(candidate, delegation, samples);
    cs := seq(|candidate|, p requires 0 <= p < |candidate| reads candidate => candidate[p][..]);
    ds := seq(|delegation|, p requires 0 <= p < |delegation| reads delegation => delegation[p][..]);
    assert cs == Contents(candidate) && ds == Contents(delegation);
  }

  /** Where each voter's power ends when only the sample submits: at its holder's candidate, if that one is sampled. */
  function SampleCast(n: nat, samples: nat, owner: seq<nat>, cs: seq<int>, ds: seq<int>): (r: seq<int>)
    requires samples <= n == |cs| == |ds|
    ensures |r| == n
  {
    seq(n, u requires 0 <= u < n =>
      var holder := if u < samples then Receiver(owner, ds[u], u) else u;
      if holder < samples then cs[holder] else -1)
  }

  function SampledChoices(choices: seq<int>, samples: nat): (r: seq<int>)
    ensures |r| == |choices|
  {
    seq(|choices|, v requires 0 <= v < |choices| => if v < samples then choices[v] else -1)
  }

  /** The sampled voters choose what they submitted, the others nothing. */
  lemma SampleChooses(own: seq<seq<int>>, other: seq<seq<int>>, n: nat, width: nat, samples: nat, m: seq<int>)
    requires Sampled(own, other, n, samples) && ValidSchedule(own, other, n, width)
    requires IsEchoTotals(own, other, n, width, |own|, m)
    ensures AllChoose(m, n, width, |own|, SampledChoices(own[0], samples))
  {
    var T, xs := |own|, SampledChoices(own[0], samples);
    assert ValidPeriod(own[0], other[0], n, width);
    forall v: nat | v < n ensures Chooses(m, width, T, v, xs[v]) {
      forall c: nat | c < width ensures Entry(m, width, v, c) == if v < samples && own[0][v] == c then T else 0 {
        SampledEcho(own, other, n, width, samples, v, c, T);
      }
    }
  }

  lemma SampledSymmetric(candidate: seq<seq<int>>, delegation: seq<seq<int>>, n: nat, samples: nat)
    requires Sampled(candidate, delegation, n, samples)
    ensures Sampled(delegation, candidate, n, samples)
  {
  }

  /** The tally of a sampled run, candidate by candidate. */
  lemma SampledTallyByVoters(D: seq<seq<nat>>, owner: seq<nat>, w: seq<int>, t: seq<int>, q: seq<int>, b: nat, k: nat,
      cs: seq<seq<int>>, ds: seq<seq<int>>, samples: nat, c: nat)
    requires Sampled(cs, ds, |q|, samples) && BothValid(cs, ds, |q|, b, k, |cs|) && OwnedBy(D, |q|, k, owner) && c < b
    requires IsEchoTotals(cs, ds, |q|, b, |cs|, t) && IsEchoTotals(ds, cs, |q|, k, |cs|, w)
    requires RowsBounded(w, |q|, k, |cs|) && RowsBounded(t, |q|, b, |cs|)
    ensures Tally(D, w, t, q, b, k, |cs|, c) == PowerOf(q, SampleCast(|q|, samples, owner, cs[0], ds[0]), c, |q|)
  {
    var n, del, cand := |q|, SampledChoices(ds[0], samples), SampledChoices(cs[0], samples);
    SampledSymmetric(cs, ds, n, samples);
    SampleChooses(cs, ds, n, b, samples, t);
    SampleChooses(ds, cs, n, k, samples, w);
    TallyByBallots(D, owner, w, t, q, b, k, |cs|, del, cand, c);
    assert ValidPeriod(ds[0], cs[0], n, k);
    var x, y := Cast(owner, del, cand), SampleCast(n, samples, owner, cs[0], ds[0]);
    forall u: nat | u < n ensures x[u] == y[u] {
    }
    assert x == y;
  }

  /** What a benchmark run promises of its draws, its tally and its costs. */
  ghost predicate BenchmarkResult(ev: Evaluator, n: nat, b: nat, k: nat, T: nat, qMax: nat, o: Options,
      cs: seq<seq<int>>, ds: seq<seq<int>>, streams: nat -> nat -> nat, decoded: seq<int>, run: EchoRun, passed: bool,
      q: seq<nat>, D: seq<seq<nat>>, owner: seq<nat>, t: seq<int>, w: seq<int>)
    requires 0 < k < n && T > 0 && qMax > 0 && Parameters(ev, b, k, T)
    requires BothValid(cs, ds, n, b, k, T) && o.sampleVoters <= n
  {
    && OwnedBy(D, n, k, owner) && owner == Shuffled(n, streams(0), k)[..k]
    && |q| == n && (forall v :: 0 <= v < n ==> q[v] == 1 + streams(3)(v) % qMax)
    && IsEchoTotals(cs, ds, n, b, T, t) && IsEchoTotals(ds, cs, n, k, T, w)
    && (passed <==> SumOf(q, n) < ev.t)
    && (passed ==>
          && run.inputCiphertexts == 3 * o.sampleVoters && CostsAsModelled(run, o, Blocks(ev, n, b, k), T)
          && |decoded| == b && SumOf(decoded, b) <= SumOf(q, n)
          && SumOf(decoded, b) == SumOf(Weights(D, w, q, k, T), o.sampleVoters)
          && forall c :: 0 <= c < b ==>
               && decoded[c] == Tally(D, w, t, q, b, k, T, c)
               && decoded[c] == PowerOf(q, SampleCast(n, o.sampleVoters, owner, cs[0], ds[0]), c, n))
  }

  /** The benchmark on schedules that are already restricted. */
  method RunSample(ev: Evaluator, n: nat, b: nat, k: nat, T: nat, qMax: nat, o: Options, cs: seq<seq<int>>,
      ds: seq<seq<int>>, streams: nat -> nat -> nat)
    returns (decoded: seq<int>, run: EchoRun, passed: bool, q: seq<nat>, D: seq<seq<nat>>, ghost owner: seq<nat>,
             ghost t: seq<int>, ghost w: seq<int>)
    requires 0 < k < n && T > 0 && 0 < qMax < TWO_64 && Parameters(ev, b, k, T) && ValidOptions(o)
    requires 0 < o.sampleVoters <= n && BothValid(cs, ds, n, b, k, T) && Sampled(cs, ds, n, o.sampleVoters)
    ensures BenchmarkResult(ev, n, b, k, T, qMax, o, cs, ds, streams, decoded, run, passed, q, D, owner, t, w)
  {
    D, owner := RandomDelegationMatrix(n, k, streams(0));
    q := RandomVotingPower(n, qMax, streams(3));
    t, w := EchoTotalsMatrix(cs, ds, n, b, T), EchoTotalsMatrix(ds, cs, n, k, T);
    EchoTotalsMatrixIsTotals(cs, ds, n, b, T);
    EchoTotalsMatrixIsTotals(ds, cs, n, k, T);
    var covered := PowerCovered(q, ev.t);
    if !covered {
      decoded, run, passed := [], EchoRun([], [], 0, 0, 0, 0), false;
      return;
    }
    EchoRowsBounded(cs, ds, n, b, t);
    EchoRowsBounded(ds, cs, n, k, w);
    CoveredTally(D, w, t, q, n, b, k, T, owner, ev.t);
    decoded, run, passed := CheckedTally(ev, n, b, k, T, D, cs, ds, q, o, t, w);
    SampleSubmitsOnce(cs, ds, n, o.sampleVoters, T);
    SampledTally(D, w, t, q, b, k, cs, ds, o.sampleVoters, decoded);
    forall c: nat | c < b
      ensures decoded[c] == PowerOf(q, SampleCast(n, o.sampleVoters, owner, cs[0], ds[0]), c, n)
    {
      SampledTallyByVoters(D, owner, w, t, q, b, k, cs, ds, o.sampleVoters, c);
    }
  }

  /**
   * The benchmark: only the sampled voters submit, in period 0. Their choices echo, so
   * each of them selects, and every candidate gets the power that the sample's delegates
   * and the unsampled voters leave with the sampled voters that chose the candidate.
   */
  method RunBenchmark(ev: Evaluator, n: nat, b: nat, k: nat, T: nat, qMax: nat, o: Options,
      candidate: seq<array<int>>, delegation: seq<array<int>>, streams: nat -> nat -> nat)
    returns (decoded: seq<int>, run: EchoRun, passed: bool, q: seq<nat>, D: seq<seq<nat>>, ghost owner: seq<nat>,
             ghost t: seq<int>, ghost w: seq<int>)
    requires 0 < k < n && T > 0 && 0 < qMax < TWO_64 && Parameters(ev, b, k, T) && ValidOptions(o)
    requires 0 < o.sampleVoters <= n && |candidate| == |delegation| == T && RowsApart(candidate + delegation)
    requires forall p :: 0 <= p < T ==> candidate[p].Length == delegation[p].Length == n
    requires forall v :: 0 <= v < n ==> 0 <= candidate[0][v] < b && 0 <= delegation[0][v] < k
    modifies candidate, delegation
    ensures BothValid(Contents(candidate), Contents(delegation), n, b, k, T)
    ensures forall v :: 0 <= v < o.sampleVoters ==>
      candidate[0][v] == old(candidate[0][v]) && delegation[0][v] == old(delegation[0][v])
    ensures BenchmarkResult(ev, n, b, k, T, qMax, o, Contents(candidate), Contents(delegation), streams, decoded, run,
                            passed, q, D, owner, t, w)
  {
    var cs, ds := BenchmarkSchedules(candidate, delegation, n, b, k, o.sampleVoters);
    decoded, run, passed, q, D, owner, t, w := RunSample(ev, n, b, k, T, qMax, o, cs, ds, streams);
  }
}
