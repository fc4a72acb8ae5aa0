/**
 * The plaintext references of test.go. Their sums are uint64, so each is proved equal
 * to the exact tally modulo 2^64; the two references, one over materialised echo
 * totals and one over the period schedules, therefore always agree.
 */
module PlainTally {
  import opened Modular
  import opened ModularHelpers
  import opened Matrices
  import opened TallySpec
  import opened Schedules

  lemma WrapAdd(a: int, b: int)
    ensures Wrap64(Wrap64(a) + b) == Wrap64(a + b) == Wrap64(Wrap64(a) + Wrap64(b))
  {
    ModAddMod(a, b, TWO_64);
  }

  lemma WrapMul(a: int, b: int)
    ensures Wrap64(a * Wrap64(b)) == Wrap64(a * b)
  {
    ModMulMod(a, b, TWO_64);
  }

  /** The assertion of delegationIndicatorPlain: no row selects two delegates. */
  ghost predicate SelectsAtMostOne(w: seq<int>, n: nat, k: nat, T: nat) {
    |w| == n * k && forall v: nat :: v < n ==> RowSum(Selected(w, T), k, v, k) <= 1
  }

  method SelectedInRow(w: seq<int>, n: nat, k: nat, T: nat, v: nat) returns (rowSum: nat)
    requires |w| == n * k && v < n
    ensures rowSum == RowSum(Selected(w, T), k, v, k)
  {
    rowSum := 0;
    for l := 0 to k
      invariant rowSum == RowSum(Selected(w, T), k, v, l)
    {
      FlatIndex(n, k, v, l);
      SelectedEntry(w, T, n, k, v, l);
      if w[v * k + l] > T / 2 {
        rowSum := rowSum + 1;
      }
    }
  }

  /** test.go delegationIndicatorPlain. */
  method DelegationIndicatorPlain(w: seq<int>, n: nat, k: nat, T: nat) returns (kept: seq<nat>)
    requires SelectsAtMostOne(w, n, k, T)
    ensures |kept| == n && forall v :: 0 <= v < n ==> kept[v] == 1 - RowSum(Selected(w, T), k, v, k)
  {
    var out := new nat[n](_ => 0);
    for v := 0 to n
      invariant forall u :: 0 <= u < v ==> out[u] == 1 - RowSum(Selected(w, T), k, u, k)
    {
      var rowSum := SelectedInRow(w, n, k, T, v);
      out[v] := 1 - rowSum;
    }
    kept := out[..];
  }

  /** test.go weightedSelfPowerPlain. */
  method WeightedSelfPowerPlain(w: seq<int>, q: seq<nat>, n: nat, k: nat, T: nat) returns (power: seq<nat>)
    requires |q| == n && SelectsAtMostOne(w, n, k, T)
    ensures |power| == n && forall v :: 0 <= v < n ==> power[v] == Wrap64(SelfPower(w, q, k, T, v))
  {
    power := DelegationIndicatorPlain(w, n, k, T);
    for v := 0 to n
      invariant |power| == n
      invariant forall u :: 0 <= u < v ==> power[u] == Wrap64(SelfPower(w, q, k, T, u))
      invariant forall u :: v <= u < n ==> power[u] == 1 - RowSum(Selected(w, T), k, u, k)
    {
      power := power[v := Wrap64(power[v] * q[v])];
    }
  }

  /** test.go delegateSupportPlain. */
  method DelegateSupportPlain(w: seq<int>, q: seq<nat>, n: nat, k: nat, T: nat) returns (support: seq<nat>)
    requires |q| == n && |w| == n * k
    ensures |support| == k && forall l :: 0 <= l < k ==> support[l] == Wrap64(Support(w, q, k, T, l))
  {
    support := MaskedColumnSums(w, q, n, k, T);
  }

  /**
   * The nested loop of delegateSupportPlain and delegatedMaskedTallyPlain: adds every
   * row's factor to the columns its row selects.
   */
  method MaskedColumnSums(m: seq<int>, factors: seq<nat>, n: nat, width: nat, T: nat) returns (sums: seq<nat>)
    requires |factors| == n && |m| == n * width
    ensures |sums| == width
    ensures forall c :: 0 <= c < width ==>
      sums[c] == Wrap64(ColumnSum(RowsScaled(Selected(m, T), width, factors), width, c, 0, n))
  {
    ghost var scaled := RowsScaled(Selected(m, T), width, factors);
    var out := new nat[width](_ => 0);
    for v := 0 to n
      invariant forall c :: 0 <= c < width ==> out[c] == Wrap64(ColumnSum(scaled, width, c, 0, v))
    {
      for c := 0 to width
        invariant forall d :: 0 <= d < width ==>
          out[d] == Wrap64(ColumnSum(scaled, width, d, 0, if d < c then v + 1 else v))
      {
        FlatIndex(n, width, v, c);
        SelectedEntry(m, T, n, width, v, c);
        RowsScaledEntry(Selected(m, T), width, factors, v, c);
        WrapAdd(ColumnSum(scaled, width, c, 0, v), factors[v]);
        if m[v * width + c] > T / 2 {
          out[c] := Wrap64(out[c] + factors[v]);
        }
      }
    }
    sums := out[..];
  }

  /** The inner loop over the delegates of one voter. */
  method AddDelegated(D: seq<seq<nat>>, ghost w: seq<int>, q: seq<nat>, k: nat, T: nat, v: nat, start: nat,
      ghost own: int, support: seq<nat>)
    returns (weight: nat)
    requires |w| == |q| * k && IsDelegation(D, |q|, k) && v < |q|
    requires |support| == k && forall l :: 0 <= l < k ==> support[l] == Wrap64(Support(w, q, k, T, l))
    requires start == Wrap64(own)
    ensures weight == Wrap64(own + Delegated(D, w, q, k, T, v, k))
  {
    weight := start;
    for l := 0 to k
      invariant weight == Wrap64(own + Delegated(D, w, q, k, T, v, l))
    {
      WrapMul(D[v][l], Support(w, q, k, T, l));
      WrapAdd(own + Delegated(D, w, q, k, T, v, l), D[v][l] * Support(w, q, k, T, l));
      weight := Wrap64(weight + Wrap64(D[v][l] * support[l]));
    }
  }

  /** test.go delegatedVoterWeightsPlain. */
  method DelegatedVoterWeightsPlain(D: seq<seq<nat>>, w: seq<int>, q: seq<nat>, n: nat, k: nat, T: nat)
    returns (weights: seq<nat>)
    requires |q| == n && IsDelegation(D, n, k) && SelectsAtMostOne(w, n, k, T)
    ensures |weights| == n && forall v :: 0 <= v < n ==> weights[v] == Wrap64(Weight(D, w, q, k, T, v))
  {
    var dTilde := WeightedSelfPowerPlain(w, q, n, k, T);
    var support := DelegateSupportPlain(w, q, n, k, T);
    var out := new nat[n](_ => 0);
    for v := 0 to n
      invariant forall u :: 0 <= u < v ==> out[u] == Wrap64(Weight(D, w, q, k, T, u))
    {
      out[v] := AddDelegated(D, w, q, k, T, v, dTilde[v], SelfPower(w, q, k, T, v), support);
    }
    weights := out[..];
  }

  /** Wrapping the factors does not change the wrapped column sums. */
  lemma {:induction false} WrappedFactors(m: seq<int>, width: nat, f: seq<int>, g: seq<nat>, c: nat, n: nat)
    requires |m| == |f| * width && |g| == |f| && c < width && n <= |f|
    requires forall v :: 0 <= v < |f| ==> g[v] == Wrap64(f[v])
    ensures Wrap64(ColumnSum(RowsScaled(m, width, g), width, c, 0, n))
      == Wrap64(ColumnSum(RowsScaled(m, width, f), width, c, 0, n))
  {
    if n > 0 {
      WrappedFactors(m, width, f, g, c, n - 1);
      RowsScaledEntry(m, width, f, n - 1, c);
      RowsScaledEntry(m, width, g, n - 1, c);
      WrapMul(Entry(m, width, n - 1, c), f[n - 1]);
      WrapAdd(ColumnSum(RowsScaled(m, width, f), width, c, 0, n - 1), Entry(m, width, n - 1, c) * f[n - 1]);
      WrapAdd(ColumnSum(RowsScaled(m, width, g), width, c, 0, n - 1), Entry(m, width, n - 1, c) * g[n - 1]);
    }
  }

  /** test.go delegatedMaskedTallyPlain. */
  method DelegatedMaskedTallyPlain(D: seq<seq<nat>>, w: seq<int>, t: seq<int>, q: seq<nat>, n: nat, b: nat, k: nat,
      T: nat)
    returns (tally: seq<nat>)
    requires |q| == n && |t| == n * b && IsDelegation(D, n, k) && SelectsAtMostOne(w, n, k, T)
    ensures |tally| == b && forall c :: 0 <= c < b ==> tally[c] == Wrap64(Tally(D, w, t, q, b, k, T, c))
  {
    var weights := DelegatedVoterWeightsPlain(D, w, q, n, k, T);
    tally := MaskedColumnSums(t, weights, n, b, T);
    forall c | 0 <= c < b ensures tally[c] == Wrap64(Tally(D, w, t, q, b, k, T, c)) {
      WrappedFactors(Selected(t, T), b, Weights(D, w, q, k, T), weights, c, n);
    }
  }

  // --------------------------------------------------- the memory-light reference

  /** Echo totals have bounded rows, so the row-sum assertion cannot fail. */
  lemma EchoRowsBounded(choices: seq<seq<int>>, other: seq<seq<int>>, n: nat, width: nat, out: seq<int>)
    requires ValidSchedule(choices, other, n, width) && IsEchoTotals(choices, other, n, width, |choices|, out)
    ensures RowsBounded(out, n, width, |choices|)
    ensures SelectsAtMostOne(out, n, width, |choices|)
  {
    forall v: nat | v < n
      ensures RowSum(out, width, v, width) <= |choices|
      ensures forall c: nat :: c < width ==> Entry(out, width, v, c) >= 0
    {
      EchoRowBounded(choices, other, n, width, v, |choices|, out);
    }
    forall v: nat | v < n ensures RowSum(Selected(out, |choices|), width, v, width) <= 1 {
      AtMostOneSelected(out, n, width, |choices|, v);
    }
  }

  /** Two choices cannot both be in force for a majority of the periods. */
  lemma {:induction false} MajorityUnique(choices: seq<seq<int>>, other: seq<seq<int>>, n: nat, width: nat,
      voter: nat, c: int, d: int, m: nat)
    requires ValidSchedule(choices, other, n, width) && voter < n && m <= |choices| && c != d
    ensures EchoCount(choices, other, n, width, voter, c, m) + EchoCount(choices, other, n, width, voter, d, m) <= m
  {
    if m > 0 {
      MajorityUnique(choices, other, n, width, voter, c, d, m - 1);
    }
  }

  /** The closure selectedChoice, which reuses one counts buffer. */
  method SelectedChoice(choices: seq<seq<int>>, other: seq<seq<int>>, n: nat, width: nat, voter: nat,
      counts: array<nat>)
    returns (selected: int)
    requires ValidSchedule(choices, other, n, width) && voter < n && counts.Length == width
    modifies counts
    ensures -1 <= selected < width
    ensures forall c :: 0 <= c < width ==>
      (EchoCount(choices, other, n, width, voter, c, |choices|) > |choices| / 2 <==> c == selected)
  {
    for c := 0 to width
      invariant forall d :: 0 <= d < c ==> counts[d] == 0
    {
      counts[c] := 0;
    }
    var current := NO_SUBMISSION;
    for period := 0 to |choices|
      invariant current == Current(choices, other, n, width, voter, period)
      invariant forall c :: 0 <= c < width ==> counts[c] == EchoCount(choices, other, n, width, voter, c, period)
    {
      assert ValidPeriod(choices[period], other[period], n, width);
      var choice := choices[period][voter];
      if SubmissionMask(choice, other[period][voter]) == 1 {
        current := choice;
      }
      CurrentInRange(choices, other, n, width, voter, period + 1);
      if current >= 0 {
        counts[current] := counts[current] + 1;
      }
    }
    selected := -1;
    for choice := 0 to width
      invariant -1 <= selected < choice
      invariant forall c :: 0 <= c < width ==> counts[c] == EchoCount(choices, other, n, width, voter, c, |choices|)
      invariant forall c :: 0 <= c < choice ==> (counts[c] > |choices| / 2 <==> c == selected)
    {
      if counts[choice] > |choices| / 2 {
        if selected != -1 {
          // The source asserts here that no other choice was selected.
          assert counts[selected] > |choices| / 2;
          MajorityUnique(choices, other, n, width, voter, selected, choice, |choices|);
          assert false;
        }
        selected := choice;
      }
    }
    forall c | 0 <= c < width
      ensures EchoCount(choices, other, n, width, voter, c, |choices|) > |choices| / 2 <==> c == selected
    {
      assert counts[c] == EchoCount(choices, other, n, width, voter, c, |choices|);
    }
  }

  /** The row of a selected matrix is the indicator of the selected choice. */
  lemma SelectedIsRow(choices: seq<seq<int>>, other: seq<seq<int>>, n: nat, width: nat, voter: nat, out: seq<int>,
      selected: int)
    requires ValidSchedule(choices, other, n, width) && voter < n && -1 <= selected < width
    requires IsEchoTotals(choices, other, n, width, |choices|, out)
    requires forall c :: 0 <= c < width ==>
      (EchoCount(choices, other, n, width, voter, c, |choices|) > |choices| / 2 <==> c == selected)
    ensures forall c: nat :: c < width ==>
      Entry(Selected(out, |choices|), width, voter, c) == if c == selected then 1 else 0
    ensures RowSum(Selected(out, |choices|), width, voter, width) == if selected >= 0 then 1 else 0
  {
    forall c: nat | c < width
      ensures Entry(Selected(out, |choices|), width, voter, c) == if c == selected then 1 else 0
    {
      SelectedEntry(out, |choices|, n, width, voter, c);
      assert Entry(out, width, voter, c) == EchoCount(choices, other, n, width, voter, c, |choices|);
    }
    SelectedRowSum(out, n, width, |choices|, voter, selected, width);
  }

  /** The first loop of the memory-light reference. */
  method SupportFromPeriods(choices: seq<seq<int>>, other: seq<seq<int>>, q: seq<nat>, n: nat, k: nat,
      ghost w: seq<int>, counts: array<nat>)
    returns (support: seq<nat>)
    requires |q| == n && ValidSchedule(choices, other, n, k) && counts.Length == k
    requires IsEchoTotals(choices, other, n, k, |choices|, w)
    modifies counts
    ensures |support| == k && forall l :: 0 <= l < k ==> support[l] == Wrap64(Support(w, q, k, |choices|, l))
  {
    ghost var scaled := RowsScaled(Selected(w, |choices|), k, q);
    support := seq(k, _ => 0);
    for voter := 0 to n
      invariant |support| == k
      invariant forall l :: 0 <= l < k ==> support[l] == Wrap64(ColumnSum(scaled, k, l, 0, voter))
    {
      var delegate := SelectedChoice(choices, other, n, k, voter, counts);
      SelectedIsRow(choices, other, n, k, voter, w, delegate);
      forall l | 0 <= l < k
        ensures ColumnSum(scaled, k, l, 0, voter + 1)
             == ColumnSum(scaled, k, l, 0, voter) + if l == delegate then q[voter] else 0
      {
        RowsScaledEntry(Selected(w, |choices|), k, q, voter, l);
      }
      if delegate >= 0 {
        WrapAdd(ColumnSum(scaled, k, delegate, 0, voter), q[voter]);
        support := support[delegate := Wrap64(support[delegate] + q[voter])];
      }
    }
  }

  /**
   * test.go delegatedMaskedTallyFromPeriodsPlain. The ghost matrices are the echo
   * totals it never materialises.
   */
  method DelegatedMaskedTallyFromPeriodsPlain(D: seq<seq<nat>>, candidatePeriods: seq<seq<int>>,
      delegationPeriods: seq<seq<int>>, q: seq<nat>, n: nat, b: nat, k: nat, T: nat, ghost t: seq<int>,
      ghost w: seq<int>)
    returns (tally: seq<nat>)
    requires |q| == n && IsDelegation(D, n, k) && T == |candidatePeriods| == |delegationPeriods|
    requires ValidSchedule(candidatePeriods, delegationPeriods, n, b)
    requires ValidSchedule(delegationPeriods, candidatePeriods, n, k)
    requires IsEchoTotals(candidatePeriods, delegationPeriods, n, b, T, t)
    requires IsEchoTotals(delegationPeriods, candidatePeriods, n, k, T, w)
    ensures |tally| == b && forall c :: 0 <= c < b ==> tally[c] == Wrap64(Tally(D, w, t, q, b, k, T, c))
  {
    var delegationCounts := new nat[k](_ => 0);
    var support := SupportFromPeriods(delegationPeriods, candidatePeriods, q, n, k, w, delegationCounts);
    var candidateCounts := new nat[b](_ => 0);
    ghost var weights := Weights(D, w, q, k, T);
    ghost var scaled := RowsScaled(Selected(t, T), b, weights);
    tally := seq(b, _ => 0);
    for voter := 0 to n
      invariant |tally| == b
      invariant forall c :: 0 <= c < b ==> tally[c] == Wrap64(ColumnSum(scaled, b, c, 0, voter))
    {
      var candidate := SelectedChoice(candidatePeriods, delegationPeriods, n, b, voter, candidateCounts);
      SelectedIsRow(candidatePeriods, delegationPeriods, n, b, voter, t, candidate);
      forall c | 0 <= c < b
        ensures ColumnSum(scaled, b, c, 0, voter + 1)
             == ColumnSum(scaled, b, c, 0, voter) + if c == candidate then weights[voter] else 0
      {
        RowsScaledEntry(Selected(t, T), b, weights, voter, c);
      }
      if candidate < 0 {
        continue;
      }
      var delegate := SelectedChoice(delegationPeriods, candidatePeriods, n, k, voter, delegationCounts);
      SelectedIsRow(delegationPeriods, candidatePeriods, n, k, voter, w, delegate);
      var own := if delegate < 0 then q[voter] else 0;
      assert own == SelfPower(w, q, k, T, voter);
      var weight := AddDelegated(D, w, q, k, T, voter, Wrap64(own), own, support);
      WrapAdd(ColumnSum(scaled, b, candidate, 0, voter), weights[voter]);
      tally := tally[candidate := Wrap64(tally[candidate] + weight)];
    }
  }
}
