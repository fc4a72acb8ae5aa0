/**
 * Period schedules and the plaintext echo (helpers.go): the shared submission mask,
 * the expansion of counts into periods and the totals the echo gives back.
 */
module Schedules {
  import opened Matrices

  const NO_SUBMISSION := -1
  const ZERO_SUBMISSION := -2

  /** A pair of choices the assertions of submissionMask admit. */
  predicate ValidPair(candidate: int, delegation: int) {
    && candidate >= ZERO_SUBMISSION && delegation >= ZERO_SUBMISSION
    && (candidate == ZERO_SUBMISSION <==> delegation == ZERO_SUBMISSION)
  }

  function SubmissionMask(candidate: int, delegation: int): (z: nat)
    requires ValidPair(candidate, delegation)
    ensures z <= 1
  {
    if candidate == ZERO_SUBMISSION || delegation == ZERO_SUBMISSION then 0
    else if candidate >= 0 || delegation >= 0 then 1
    else 0
  }

  /** One period of one component, beside the other component. */
  ghost predicate ValidPeriod(choices: seq<int>, other: seq<int>, n: nat, width: nat) {
    && |choices| == |other| == n
    && forall v :: 0 <= v < n ==> choices[v] < width && ValidPair(choices[v], other[v])
  }

  ghost predicate ValidSchedule(choices: seq<seq<int>>, other: seq<seq<int>>, n: nat, width: nat) {
    && |choices| == |other|
    && forall p :: 0 <= p < |choices| ==> ValidPeriod(choices[p], other[p], n, width)
  }

  // ------------------------------------------------------------------- echo

  /** The choice of a voter that is in force after m periods. */
  ghost function Current(choices: seq<seq<int>>, other: seq<seq<int>>, n: nat, width: nat, voter: nat, m: nat): int
    requires ValidSchedule(choices, other, n, width) && voter < n && m <= |choices|
  {
    if m == 0 then NO_SUBMISSION
    else if SubmissionMask(choices[m - 1][voter], other[m - 1][voter]) == 1 then choices[m - 1][voter]
    else Current(choices, other, n, width, voter, m - 1)
  }

  lemma {:induction false} CurrentInRange(choices: seq<seq<int>>, other: seq<seq<int>>, n: nat, width: nat,
      voter: nat, m: nat)
    requires ValidSchedule(choices, other, n, width) && voter < n && m <= |choices|
    ensures NO_SUBMISSION <= Current(choices, other, n, width, voter, m)
    ensures Current(choices, other, n, width, voter, m) >= 0 ==> Current(choices, other, n, width, voter, m) < width
  {
    if m > 0 {
      assert ValidPeriod(choices[m - 1], other[m - 1], n, width);
      CurrentInRange(choices, other, n, width, voter, m - 1);
    }
  }

  /** A voter's submission in a period: not the paired zero, and not silence of both components. */
  predicate Submits(choice: int, other: int) {
    choice != -2 && other != -2 && (choice >= 0 || other >= 0)
  }

  lemma SubmitsIsMask(choice: int, other: int)
    requires ValidPair(choice, other)
    ensures Submits(choice, other) <==> SubmissionMask(choice, other) == 1
  {
  }

  /** The choice in force is that of the last submission. */
  lemma {:induction false} CurrentIsLast(choices: seq<seq<int>>, other: seq<seq<int>>, n: nat, width: nat,
      voter: nat, p: nat, m: nat)
    requires ValidSchedule(choices, other, n, width) && voter < n && p < m <= |choices|
    requires forall r :: p <= r < m ==> |choices[r]| == |other[r]| == n
    requires Submits(choices[p][voter], other[p][voter])
    requires forall r :: p < r < m ==> !Submits(choices[r][voter], other[r][voter])
    ensures Current(choices, other, n, width, voter, m) == choices[p][voter]
  {
    assert ValidPeriod(choices[m - 1], other[m - 1], n, width);
    SubmitsIsMask(choices[m - 1][voter], other[m - 1][voter]);
    if p < m - 1 {
      CurrentIsLast(choices, other, n, width, voter, p, m - 1);
    }
  }

  /** Before the first submission no choice is in force. */
  lemma {:induction false} NoneBeforeFirst(choices: seq<seq<int>>, other: seq<seq<int>>, n: nat, width: nat,
      voter: nat, m: nat)
    requires ValidSchedule(choices, other, n, width) && voter < n && m <= |choices|
    requires forall r :: 0 <= r < m ==> |choices[r]| == |other[r]| == n
    requires forall r :: 0 <= r < m ==> !Submits(choices[r][voter], other[r][voter])
    ensures Current(choices, other, n, width, voter, m) == -1
  {
    if m > 0 {
      assert ValidPeriod(choices[m - 1], other[m - 1], n, width);
      SubmitsIsMask(choices[m - 1][voter], other[m - 1][voter]);
      NoneBeforeFirst(choices, other, n, width, voter, m - 1);
    }
  }

  /** How many of the first m periods a voter's choice in force was c. */
  ghost function EchoCount(choices: seq<seq<int>>, other: seq<seq<int>>, n: nat, width: nat, voter: nat, c: int,
      m: nat): (k: nat)
    requires ValidSchedule(choices, other, n, width) && voter < n && m <= |choices|
    ensures k <= m
  {
    if m == 0 then 0
    else EchoCount(choices, other, n, width, voter, c, m - 1)
         + if Current(choices, other, n, width, voter, m) == c then 1 else 0
  }

  /** The periods, numbered from 1, in which a voter's choice in force is c. */
  ghost function InForce(choices: seq<seq<int>>, other: seq<seq<int>>, n: nat, width: nat, voter: nat, c: int,
      m: nat): set<nat>
    requires ValidSchedule(choices, other, n, width) && voter < n && m <= |choices|
  {
    set p: nat | 0 < p <= m && Current(choices, other, n, width, voter, p) == c
  }

  lemma InForceStep(choices: seq<seq<int>>, other: seq<seq<int>>, n: nat, width: nat, voter: nat, c: int, m: nat)
    requires ValidSchedule(choices, other, n, width) && voter < n && 0 < m <= |choices|
    ensures m !in InForce(choices, other, n, width, voter, c, m - 1)
    ensures InForce(choices, other, n, width, voter, c, m)
         == InForce(choices, other, n, width, voter, c, m - 1)
            + if Current(choices, other, n, width, voter, m) == c then {m} else {}
  {
  }

  /** The count is the number of those periods. */
  lemma {:induction false} EchoCountIsCardinality(choices: seq<seq<int>>, other: seq<seq<int>>, n: nat, width: nat,
      voter: nat, c: int, m: nat)
    requires ValidSchedule(choices, other, n, width) && voter < n && m <= |choices|
    ensures EchoCount(choices, other, n, width, voter, c, m) == |InForce(choices, other, n, width, voter, c, m)|
  {
    if m > 0 {
      EchoCountIsCardinality(choices, other, n, width, voter, c, m - 1);
      InForceStep(choices, other, n, width, voter, c, m);
    } else {
      assert InForce(choices, other, n, width, voter, c, 0) == {};
    }
  }

  /** The matrix of echo totals after m periods. */
  ghost predicate IsEchoTotals(choices: seq<seq<int>>, other: seq<seq<int>>, n: nat, width: nat, m: nat, out: seq<int>)
    requires ValidSchedule(choices, other, n, width) && m <= |choices|
  {
    && |out| == n * width
    && forall v: nat, c: nat :: v < n && c < width ==>
         Entry(out, width, v, c) == EchoCount(choices, other, n, width, v, c, m)
  }

  /** The totals as one matrix, for runs that never materialise it. */
  ghost function EchoTotalsMatrix(choices: seq<seq<int>>, other: seq<seq<int>>, n: nat, width: nat, m: nat): seq<int>
    requires ValidSchedule(choices, other, n, width) && m <= |choices|
  {
    seq(n * width, i requires 0 <= i < n * width =>
      if width > 0 && i / width < n then EchoCount(choices, other, n, width, i / width, i % width, m) else 0)
  }

  lemma EchoTotalsMatrixIsTotals(choices: seq<seq<int>>, other: seq<seq<int>>, n: nat, width: nat, m: nat)
    requires ValidSchedule(choices, other, n, width) && m <= |choices|
    ensures IsEchoTotals(choices, other, n, width, m, EchoTotalsMatrix(choices, other, n, width, m))
  {
    var out := EchoTotalsMatrix(choices, other, n, width, m);
    forall v: nat, c: nat | v < n && c < width
      ensures Entry(out, width, v, c) == EchoCount(choices, other, n, width, v, c, m)
    {
      FlatIndex(n, width, v, c);
    }
  }

  lemma EchoTotalsUnique(choices: seq<seq<int>>, other: seq<seq<int>>, n: nat, width: nat, m: nat, x: seq<int>,
      y: seq<int>)
    requires ValidSchedule(choices, other, n, width) && m <= |choices|
    requires IsEchoTotals(choices, other, n, width, m, x) && IsEchoTotals(choices, other, n, width, m, y)
    ensures x == y
  {
    EntriesDetermine(x, y, n, width);
  }

  /** A voter is counted at most once a period, so a row sums to at most the periods. */
  lemma {:induction false} EchoRowBounded(choices: seq<seq<int>>, other: seq<seq<int>>, n: nat, width: nat,
      voter: nat, m: nat, out: seq<int>)
    requires ValidSchedule(choices, other, n, width) && voter < n && m <= |choices|
    requires IsEchoTotals(choices, other, n, width, m, out)
    ensures RowSum(out, width, voter, width) <= m
    ensures forall c: nat :: c < width ==> 0 <= Entry(out, width, voter, c) <= m
  {
    EchoRowSum(choices, other, n, width, voter, m, out, width);
    forall c: nat | c < width ensures 0 <= Entry(out, width, voter, c) <= m {
    }
  }

  ghost function CountUpTo(choices: seq<seq<int>>, other: seq<seq<int>>, n: nat, width: nat, voter: nat, c: nat,
      m: nat): nat
    requires ValidSchedule(choices, other, n, width) && voter < n && m <= |choices|
  {
    if c == 0 then 0
    else CountUpTo(choices, other, n, width, voter, c - 1, m) + EchoCount(choices, other, n, width, voter, c - 1, m)
  }

  lemma {:induction false} CountUpToStep(choices: seq<seq<int>>, other: seq<seq<int>>, n: nat, width: nat,
      voter: nat, c: nat, m: nat)
    requires ValidSchedule(choices, other, n, width) && voter < n && 0 < m <= |choices|
    ensures CountUpTo(choices, other, n, width, voter, c, m)
         == CountUpTo(choices, other, n, width, voter, c, m - 1)
            + if 0 <= Current(choices, other, n, width, voter, m) < c then 1 else 0
  {
    if c > 0 {
      CountUpToStep(choices, other, n, width, voter, c - 1, m);
    }
  }

  lemma {:induction false} CountUpToBounded(choices: seq<seq<int>>, other: seq<seq<int>>, n: nat, width: nat,
      voter: nat, c: nat, m: nat)
    requires ValidSchedule(choices, other, n, width) && voter < n && m <= |choices|
    ensures CountUpTo(choices, other, n, width, voter, c, m) <= m
    decreases m, c
  {
    if m > 0 {
      CountUpToStep(choices, other, n, width, voter, c, m);
      CountUpToBounded(choices, other, n, width, voter, c, m - 1);
    } else if c > 0 {
      CountUpToBounded(choices, other, n, width, voter, c - 1, 0);
    }
  }

  lemma {:induction false} EchoRowSum(choices: seq<seq<int>>, other: seq<seq<int>>, n: nat, width: nat, voter: nat,
      m: nat, out: seq<int>, c: nat)
    requires ValidSchedule(choices, other, n, width) && voter < n && m <= |choices| && c <= width
    requires IsEchoTotals(choices, other, n, width, m, out)
    ensures RowSum(out, width, voter, c) == CountUpTo(choices, other, n, width, voter, c, m) <= m
    decreases c
  {
    CountUpToBounded(choices, other, n, width, voter, c, m);
    if c > 0 {
      EchoRowSum(choices, other, n, width, voter, m, out, c - 1);
    }
  }

  /** Voters below `split` have been advanced to period + 1, the others not yet. */
  ghost predicate EchoProgress(choices: seq<seq<int>>, other: seq<seq<int>>, n: nat, width: nat, period: nat,
      split: nat, current: seq<int>, out: seq<int>)
    requires ValidSchedule(choices, other, n, width) && period < |choices|
  {
    && |current| == n && |out| == n * width
    && (forall v: nat :: v < n ==>
          current[v] == Current(choices, other, n, width, v, if v < split then period + 1 else period))
    && forall v: nat, c: nat :: v < n && c < width ==>
         Entry(out, width, v, c) == EchoCount(choices, other, n, width, v, c, if v < split then period + 1 else period)
  }

  /** One voter's period of the plaintext echo. */
  method EchoVoter(choices: seq<seq<int>>, other: seq<seq<int>>, n: nat, width: nat, period: nat, voter: nat,
      current: array<int>, out: array<int>)
    requires width > 0 && ValidSchedule(choices, other, n, width) && period < |choices| && voter < n && current != out
    requires EchoProgress(choices, other, n, width, period, voter, current[..], out[..])
    modifies current, out
    ensures EchoProgress(choices, other, n, width, period, voter + 1, current[..], out[..])
  {
    assert ValidPeriod(choices[period], other[period], n, width);
    var choice := choices[period][voter];
    if SubmissionMask(choice, other[period][voter]) == 1 {
      current[voter] := choice;
    }
    CurrentInRange(choices, other, n, width, voter, period + 1);
    assert current[voter] == Current(choices, other, n, width, voter, period + 1);
    if current[voter] >= 0 {
      AddToEntry(out, n, width, voter, current[voter], 1);
    }
  }

  /** One period of the plaintext echo. */
  method EchoPeriod(choices: seq<seq<int>>, other: seq<seq<int>>, n: nat, width: nat, period: nat,
      current: array<int>, out: array<int>)
    requires width > 0 && ValidSchedule(choices, other, n, width) && period < |choices|
    requires current != out && EchoProgress(choices, other, n, width, period, 0, current[..], out[..])
    modifies current, out
    ensures EchoProgress(choices, other, n, width, period, n, current[..], out[..])
  {
    for voter := 0 to n
      invariant EchoProgress(choices, other, n, width, period, voter, current[..], out[..])
    {
      EchoVoter(choices, other, n, width, period, voter, current, out);
    }
  }

  /** helpers.go periodicEchoTotalsPlain. */
  method PeriodicEchoTotalsPlain(choices: seq<seq<int>>, other: seq<seq<int>>, n: nat, width: nat)
    returns (totals: seq<int>)
    requires width > 0 && |choices| > 0 && ValidSchedule(choices, other, n, width)
    ensures IsEchoTotals(choices, other, n, width, |choices|, totals)
  {
    var current := new int[n](_ => NO_SUBMISSION);
    var out := NewMatrix(n, width);
    for period := 0 to |choices|
      invariant forall v: nat :: v < n ==> current[v] == Current(choices, other, n, width, v, period)
      invariant IsEchoTotals(choices, other, n, width, period, out[..])
    {
      EchoPeriod(choices, other, n, width, period, current, out);
      assert forall v: nat :: v < n ==> current[..][v] == current[v];
    }
    totals := out[..];
  }

  // ------------------------------------------------------------ one period

  ghost predicate IsPayload(choices: seq<int>, n: nat, width: nat, upTo: nat, payload: seq<int>) {
    && |payload| == n * width && |choices| == n
    && forall v: nat, c: nat :: v < n && c < width ==>
         Entry(payload, width, v, c) == if v < upTo && choices[v] == c then 1 else 0
  }

  ghost predicate IsMask(choices: seq<int>, other: seq<int>, n: nat, componentWidth: nat, width: nat, upTo: nat,
      mask: seq<int>) {
    && |mask| == n * width && ValidPeriod(choices, other, n, componentWidth)
    && forall v: nat, c: nat :: v < n && c < width ==>
         Entry(mask, width, v, c) == if v < upTo then SubmissionMask(choices[v], other[v]) else 0
  }

  /** helpers.go periodPlain. */
  method PeriodPlain(choices: seq<int>, other: seq<int>, n: nat, width: nat) returns (payload: seq<int>, mask: seq<int>)
    requires width > 0 && ValidPeriod(choices, other, n, width)
    ensures IsPayload(choices, n, width, n, payload)
    ensures IsMask(choices, other, n, width, width, n, mask)
  {
    var pay := NewMatrix(n, width);
    var msk := NewMatrix(n, width);
    for voter := 0 to n
      invariant IsPayload(choices, n, width, voter, pay[..])
      invariant IsMask(choices, other, n, width, width, voter, msk[..])
    {
      var choice := choices[voter];
      var z := SubmissionMask(choice, other[voter]);
      if choice >= 0 {
        SetEntry(pay, n, width, voter, choice, 1);
      }
      FillRow(msk, n, width, voter, z);
    }
    payload, mask := pay[..], msk[..];
  }

  method FillRow(out: array<int>, n: nat, width: nat, row: nat, x: int)
    requires out.Length == n * width && row < n
    modifies out
    ensures forall r: nat, c: nat :: c < width ==>
      Entry(out[..], width, r, c) == if r == row then x else Entry(old(out[..]), width, r, c)
  {
    for offset := 0 to width
      invariant forall r: nat, c: nat :: c < width ==>
        Entry(out[..], width, r, c) == if r == row && c < offset then x else Entry(old(out[..]), width, r, c)
    {
      SetEntry(out, n, width, row, offset, x);
    }
  }
}
