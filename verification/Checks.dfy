/**
 * The diagnostic comparisons of main.go (test.go mp_verify...). Each decodes ciphertexts
 * and compares them with a plaintext reference; false stands for a failed assertion.
 * The slots are residues modulo t and the references wrap at 2^64, so a comparison
 * succeeds because no compared value reaches either bound.
 */
module Checks {
  import opened Modular
  import opened ModularHelpers
  import opened Matrices
  import opened Packing
  import opened Slots
  import opened Bgv
  import opened Lagrange
  import opened Schedules
  import opened Streaming
  import opened TallySpec
  import opened PackedAlgebra
  import opened PackedTally
  import opened PlainTally

  // ------------------------------------------------------ decode and compare

  /** test.go verifyLeadingSlots; false stands for a failed assertion. */
  method VerifyLeadingSlots(expected: seq<int>, decoded: seq<int>) returns (same: bool)
    ensures same <==> decoded == expected
  {
    if |decoded| != |expected| {
      return false;
    }
    for i := 0 to |expected|
      invariant decoded[..i] == expected[..i]
    {
      if decoded[i] != expected[i] {
        return false;
      }
      assert decoded[..i + 1] == decoded[..i] + [decoded[i]] && expected[..i + 1] == expected[..i] + [expected[i]];
    }
    assert decoded[..|expected|] == decoded && expected[..|expected|] == expected;
    return true;
  }

  lemma PackedResidues(g: Grid, m: seq<int>, width: nat, n: nat, i: nat, t: nat)
    requires g.Valid() && t > 0 && |m| == n * width
    ensures Residues(Packed(g, m, width, n, i), t) == Packed(g, Residues(m, t), width, n, i)
  {
    forall s: nat | s < g.Slots()
      ensures PackedAt(g, m, width, n, i, s) % t == PackedAt(g, Residues(m, t), width, n, i, s)
    {
      SmallMod(0, t);
      if VoterAt(g, i, s) < n && g.ColOf(s) % g.blockSize < width {
        FlatIndex(n, width, VoterAt(g, i, s), g.ColOf(s) % g.blockSize);
      }
    }
  }

  function SlotsOf(cts: seq<Ciphertext>): (slots: seq<seq<int>>)
    reads cts
    ensures |slots| == |cts|
  {
    seq(|cts|, i requires 0 <= i < |cts| reads cts => cts[i].slots)
  }

  /** What the decoders read of the ciphertexts is the matrix modulo t; other slots may hold anything. */
  ghost predicate Shows(ev: Evaluator, g: Grid, cts: seq<Ciphertext>, m: seq<int>, width: nat, n: nat)
    requires ev.Valid() && g.Valid()
    reads cts
  {
    && |m| == n * width && (forall i :: 0 <= i < |cts| ==> |cts[i].slots| == g.Slots())
    && forall v: nat, c: nat :: v < n && c < width ==> ReadSlot(g, SlotsOf(cts), v, c) == Entry(m, width, v, c) % ev.t
  }

  lemma PackedShows(ev: Evaluator, g: Grid, cts: seq<Ciphertext>, m: seq<int>, width: nat, n: nat)
    requires ev.Valid() && g.Valid() && g.cols == ev.cols && 0 < width <= g.blockSize
    requires n <= |cts| * g.PerCiphertext() && |m| == n * width && HoldsPacked(ev, g, cts, m, width, n, |cts|)
    ensures Shows(ev, g, cts, m, width, n)
  {
    forall i | 0 <= i < |cts| ensures SlotsOf(cts)[i] == Packed(g, Residues(m, ev.t), width, n, i) {
      PackedResidues(g, m, width, n, i, ev.t);
    }
    forall v: nat, c: nat | v < n && c < width
      ensures ReadSlot(g, SlotsOf(cts), v, c) == Entry(m, width, v, c) % ev.t
    {
      ReadPacked(g, Residues(m, ev.t), width, n, SlotsOf(cts), v, c);
      FlatIndex(n, width, v, c);
    }
  }

  /**
   * test.go mp_verifyPackedCiphertexts: decryption and decoding of a packed matrix,
   * padding voters included, and the comparison with the expected values.
   */
  method VerifyPackedCiphertexts(ev: Evaluator, g: Grid, cts: seq<Ciphertext>, width: nat, n: nat,
      expected: seq<int>, ghost m: seq<int>)
    returns (same: bool)
    requires ev.Valid() && g.Valid() && 0 < width <= g.blockSize && n <= |cts| * g.PerCiphertext()
    requires Shows(ev, g, cts, m, width, n)
    ensures same <==> expected == Residues(m, ev.t)
  {
    var decoded := DecodePackedBlocks(g, SlotsOf(cts), width, n);
    forall v: nat, c: nat | v < n && c < width
      ensures Entry(decoded, width, v, c) == Entry(Residues(m, ev.t), width, v, c)
    {
      FlatIndex(n, width, v, c);
    }
    EntriesDetermine(decoded, Residues(m, ev.t), n, width);
    same := VerifyLeadingSlots(expected, decoded);
  }

  /** One component's echo totals against the plaintext reference. */
  method CheckEchoTotals(ev: Evaluator, g: Grid, cts: seq<Ciphertext>, width: nat, n: nat, T: nat, expected: seq<int>)
    returns (passed: bool)
    requires ev.Valid() && g.Valid() && g.cols == ev.cols && 0 < width <= g.blockSize && n <= |cts| * g.PerCiphertext()
    requires T < ev.t && RowsBounded(expected, n, width, T) && HoldsPacked(ev, g, cts, expected, width, n, |cts|)
    ensures passed
  {
    BoundedTotals(expected, n, width, T);
    SmallResidues(expected, n, width, T, ev.t);
    PackedShows(ev, g, cts, expected, width, n);
    passed := VerifyPackedCiphertexts(ev, g, cts, width, n, expected, expected);
  }

  lemma TotalInRange(m: seq<int>, n: nat, width: nat, T: nat, i: nat)
    requires TotalsInRange(m, n, width, T) && i < |m|
    ensures 0 <= m[i] <= T
  {
    EntryOfIndex(m, n, width, i);
  }

  lemma SmallResidues(m: seq<int>, n: nat, width: nat, T: nat, t: nat)
    requires TotalsInRange(m, n, width, T) && T < t && width > 0
    ensures Residues(m, t) == m
  {
    forall i: nat | i < |m| ensures m[i] % t == m[i] {
      TotalInRange(m, n, width, T, i);
      SmallMod(m[i], t);
    }
  }

  lemma BoundedTotals(m: seq<int>, n: nat, width: nat, T: nat)
    requires RowsBounded(m, n, width, T)
    ensures TotalsInRange(m, n, width, T)
  {
    forall v: nat, c: nat | v < n && c < width ensures 0 <= Entry(m, width, v, c) <= T {
      RowSumZero(m, width, v, width);
    }
  }

  /** One number per voter, spread over its base slot, is a packed matrix of one column. */
  lemma SpreadIsPacked(g: Grid, x: seq<int>, i: nat)
    requires g.Valid()
    ensures Spread(g, x, 1, i) == Packed(g, x, 1, |x|, i)
  {
    forall s: nat | s < g.Slots() ensures SpreadAt(g, x, 1, i, s) == PackedAt(g, x, 1, |x|, i, s) {
      if VoterAt(g, i, s) < |x| {
        assert VoterAt(g, i, s) * 1 + 0 == VoterAt(g, i, s);
      }
    }
  }

  /** test.go mp_verifyBaseSlotCiphertexts: one value per voter, read from the base slots. */
  method VerifyBaseSlotCiphertexts(ev: Evaluator, g: Grid, cts: seq<Ciphertext>, n: nat, expected: seq<int>,
      ghost x: seq<int>)
    returns (same: bool)
    requires Shape(ev, g, n, |cts|) && |x| == n && HoldsSpread(ev, g, cts, x, 1, |cts|)
    ensures same <==> expected == Residues(x, ev.t)
  {
    forall i | 0 <= i < |cts| ensures ev.Holds(cts[i], Packed(g, x, 1, n, i)) {
      SpreadIsPacked(g, x, i);
    }
    PackedShows(ev, g, cts, x, 1, n);
    same := VerifyPackedCiphertexts(ev, g, cts, 1, n, expected, x);
  }

  /** test.go mp_verifyLeadingSlotsCiphertext. */
  method VerifyLeadingSlotsCiphertext(ev: Evaluator, ct: Ciphertext, count: nat, expected: seq<int>,
      ghost v: seq<int>)
    returns (same: bool)
    requires ev.Valid() && ev.Holds(ct, v) && count <= |v|
    ensures same <==> expected == Residues(v[..count], ev.t)
  {
    assert ct.slots[..count] == Residues(v[..count], ev.t);
    same := VerifyLeadingSlots(expected, ct.slots[..count]);
  }

  /** Reduced modulo t, as the slots are, and modulo 2^64, as the references are, the numbers stay equal. */
  ghost predicate Agree(x: seq<int>, t: nat)
    requires t > 0
  {
    forall i :: 0 <= i < |x| ==> Wrap64(x[i]) == x[i] % t
  }

  /** A wrapped reference equals the decoded residues exactly when the numbers agree. */
  lemma WrapsAgree(expected: seq<int>, x: seq<int>, t: nat)
    requires t > 0 && |expected| == |x| && forall i :: 0 <= i < |x| ==> expected[i] == Wrap64(x[i])
    ensures expected == Residues(x, t) <==> Agree(x, t)
  {
    assert forall i :: 0 <= i < |x| ==> Residues(x, t)[i] == x[i] % t;
    if Agree(x, t) {
      assert forall i :: 0 <= i < |x| ==> expected[i] == Residues(x, t)[i];
    }
  }

  /** Below both bounds all numbers agree. */
  lemma SmallAgree(x: seq<int>, t: nat)
    requires 0 < t <= TWO_64 && forall i :: 0 <= i < |x| ==> 0 <= x[i] < t
    ensures Agree(x, t)
  {
    forall i | 0 <= i < |x| ensures Wrap64(x[i]) == x[i] % t {
      SmallMod(x[i], t);
      SmallMod(x[i], TWO_64);
    }
  }

  // ------------------------------------------------------- the tally's checks

  /** The projection of the encrypted weights, which passes exactly if every weight is below the modulus. */
  method CheckBaseWeights(ev: Evaluator, g: Grid, qBase: seq<Ciphertext>, q: seq<nat>) returns (passed: bool)
    requires Shape(ev, g, |q|, |qBase|) && HoldsSpread(ev, g, qBase, q, 1, |qBase|)
    ensures passed <==> forall v :: 0 <= v < |q| ==> q[v] < ev.t
  {
    passed := VerifyBaseSlotCiphertexts(ev, g, qBase, |q|, q, q);
    forall v | 0 <= v < |q| ensures q[v] % ev.t == q[v] <==> q[v] < ev.t {
      CongMod(q[v], ev.t);
      if q[v] < ev.t {
        SmallMod(q[v], ev.t);
      }
    }
    assert forall v :: 0 <= v < |q| ==> Residues(q, ev.t)[v] == q[v] % ev.t;
    if forall v :: 0 <= v < |q| ==> q[v] < ev.t {
      assert Residues(q, ev.t) == q;
    }
  }

  /** test.go indicatorVectorPlain. */
  method IndicatorVectorPlain(values: seq<int>, T: nat) returns (selected: seq<int>)
    ensures selected == Selected(values, T)
  {
    var out := new int[|values|](_ => 0);
    for i := 0 to |values|
      invariant forall j :: 0 <= j < |values| ==> out[j] == if j < i then Indicator(T, values[j]) else 0
    {
      if values[i] > T / 2 {
        out[i] := 1;
      }
    }
    selected := out[..];
  }

  /** The polynomial's values at all entries. */
  function PolyMatrix(c: seq<nat>, m: seq<int>): (r: seq<int>)
    ensures |r| == |m|
  {
    seq(|m|, i requires 0 <= i < |m| => Eval(c, m[i]))
  }

  lemma PolysShow(ev: Evaluator, g: Grid, cts: seq<Ciphertext>, c: seq<nat>, m: seq<int>, width: nat, n: nat)
    requires ev.Valid() && g.Valid() && g.cols == ev.cols && 0 < width <= g.blockSize
    requires n <= |cts| * g.PerCiphertext() && |m| == n * width && HoldsPolys(ev, g, cts, c, m, width, n)
    ensures Shows(ev, g, cts, PolyMatrix(c, m), width, n)
  {
    forall v: nat, j: nat | v < n && j < width
      ensures ReadSlot(g, SlotsOf(cts), v, j) == Entry(PolyMatrix(c, m), width, v, j) % ev.t
    {
      var vectors := seq(|cts|, i requires 0 <= i < |cts| => Packed(g, m, width, n, i));
      ReadPacked(g, m, width, n, vectors, v, j);
      FlatIndex(n, width, v, j);
    }
  }

  /**
   * test.go mp_verifyIndicatorCiphertexts: passes exactly when the polynomial selects
   * every total of a voter rightly, whatever it leaves in other slots.
   */
  method CheckIndicator(ev: Evaluator, g: Grid, cts: seq<Ciphertext>, values: seq<int>, width: nat, n: nat, T: nat,
      ghost c: seq<nat>)
    returns (passed: bool)
    requires Shape(ev, g, n, |cts|) && 0 < width <= g.blockSize && |values| == n * width
    requires HoldsPolys(ev, g, cts, c, values, width, n)
    ensures passed <==> forall i :: 0 <= i < |values| ==> Eval(c, values[i]) % ev.t == Indicator(T, values[i])
  {
    var expected := IndicatorVectorPlain(values, T);
    PolysShow(ev, g, cts, c, values, width, n);
    passed := VerifyPackedCiphertexts(ev, g, cts, width, n, expected, PolyMatrix(c, values));
    ghost var decoded := Residues(PolyMatrix(c, values), ev.t);
    assert forall i :: 0 <= i < |values| ==> decoded[i] == Eval(c, values[i]) % ev.t;
    assert forall i :: 0 <= i < |values| ==> expected[i] == Indicator(T, values[i]);
    assert |decoded| == |expected| == |values|;
  }

  /** test.go weightedDelegationIndicatorPlain. */
  method WeightedDelegationIndicatorPlain(w: seq<int>, q: seq<nat>, n: nat, k: nat, T: nat) returns (weighted: seq<int>)
    requires |q| == n && |w| == n * k
    ensures |weighted| == |w|
    ensures forall v: nat, l: nat :: v < n && l < k ==>
      Entry(weighted, k, v, l) == Wrap64(Entry(RowsScaled(Selected(w, T), k, q), k, v, l))
  {
    var selected := IndicatorVectorPlain(w, T);
    var out := new int[|selected|](i requires 0 <= i < |selected| => selected[i]);
    assert out[..] == selected;
    for voter := 0 to n
      invariant forall v: nat, l: nat :: v < n && l < k ==>
        Entry(out[..], k, v, l)
          == if v < voter then Wrap64(Entry(RowsScaled(selected, k, q), k, v, l)) else Entry(selected, k, v, l)
    {
      for delegate := 0 to k
        invariant forall v: nat, l: nat :: v < n && l < k ==>
          Entry(out[..], k, v, l)
            == if v < voter || (v == voter && l < delegate) then Wrap64(Entry(RowsScaled(selected, k, q), k, v, l))
               else Entry(selected, k, v, l)
      {
        FlatIndex(n, k, voter, delegate);
        RowsScaledEntry(selected, k, q, voter, delegate);
        assert Entry(out[..], k, voter, delegate) == out[voter * k + delegate];
        SetEntry(out, n, k, voter, delegate, Wrap64(out[voter * k + delegate] * q[voter]));
      }
    }
    weighted := out[..];
  }

  /** The weighted delegation indicators. */
  method CheckWeighted(ev: Evaluator, g: Grid, cts: seq<Ciphertext>, w: seq<int>, q: seq<nat>, n: nat, k: nat, T: nat)
    returns (passed: bool)
    requires Shape(ev, g, n, |cts|) && 0 < k <= g.blockSize && |q| == n && |w| == n * k
    requires HoldsPacked(ev, g, cts, RowsScaled(Selected(w, T), k, q), k, n, |cts|)
    ensures passed <==> Agree(RowsScaled(Selected(w, T), k, q), ev.t)
  {
    ghost var m := RowsScaled(Selected(w, T), k, q);
    var expected := WeightedDelegationIndicatorPlain(w, q, n, k, T);
    PackedShows(ev, g, cts, m, k, n);
    passed := VerifyPackedCiphertexts(ev, g, cts, k, n, expected, m);
    forall i: nat | i < |m| ensures expected[i] == Wrap64(m[i]) {
      EntryOfIndex(expected, n, k, i);
      EntryOfIndex(m, n, k, i);
    }
    WrapsAgree(expected, m, ev.t);
  }

  lemma ScaledIndicatorBounded(w: seq<int>, q: seq<nat>, n: nat, k: nat, T: nat, i: nat)
    requires |q| == n && |w| == n * k && i < |w|
    ensures 0 <= RowsScaled(Selected(w, T), k, q)[i] <= SumOf(q, n)
  {
    var v := RowIndex(Selected(w, T), k, q, i);
    TermWithinSum(q, n, v);
    assert Selected(w, T)[i] == 0 || Selected(w, T)[i] == 1;
  }

  /** The delegate supports in the first k slots. */
  method CheckSupport(ev: Evaluator, g: Grid, support: Ciphertext, w: seq<int>, q: seq<nat>, n: nat, k: nat, T: nat)
    returns (passed: bool)
    requires ev.Valid() && g.Valid() && k <= g.blockSize && |q| == n && RowsBounded(w, n, k, T)
    requires ev.Holds(support, Repeated(g, Supports(w, q, k, T)))
    ensures passed <==> Agree(Supports(w, q, k, T), ev.t)
  {
    MulMonotone(1, g.perRow, g.blockSize, g.blockSize);
    var expected := DelegateSupportPlain(w, q, n, k, T);
    ghost var x := Supports(w, q, k, T);
    passed := VerifyLeadingSlotsCiphertext(ev, support, k, expected, Repeated(g, x));
    assert Repeated(g, x)[..k] == x;
    WrapsAgree(expected, x, ev.t);
  }

  lemma SelectsBounded(w: seq<int>, n: nat, k: nat, T: nat)
    requires RowsBounded(w, n, k, T)
    ensures SelectsAtMostOne(w, n, k, T)
  {
    forall v: nat | v < n ensures RowSum(Selected(w, T), k, v, k) <= 1 {
      AtMostOneSelected(w, n, k, T, v);
    }
  }

  /** The kept powers in the base slots. */
  method CheckSelfPower(ev: Evaluator, g: Grid, dTilde: seq<Ciphertext>, w: seq<int>, q: seq<nat>, n: nat, k: nat,
      T: nat)
    returns (passed: bool)
    requires Shape(ev, g, n, |dTilde|) && |q| == n && RowsBounded(w, n, k, T)
    requires HoldsSpread(ev, g, dTilde, SelfPowers(w, q, k, T), 1, |dTilde|)
    ensures passed <==> Agree(SelfPowers(w, q, k, T), ev.t)
  {
    SelectsBounded(w, n, k, T);
    var expected := WeightedSelfPowerPlain(w, q, n, k, T);
    ghost var x := SelfPowers(w, q, k, T);
    passed := VerifyBaseSlotCiphertexts(ev, g, dTilde, n, expected, x);
    WrapsAgree(expected, x, ev.t);
  }

  /** What D assigns to every voter, summed as main.go does. */
  method DelegatedPlain(D: seq<seq<nat>>, w: seq<int>, q: seq<nat>, n: nat, k: nat, T: nat)
    returns (delegated: seq<nat>)
    requires |q| == n && |w| == n * k && IsDelegation(D, n, k)
    ensures |delegated| == n && forall v :: 0 <= v < n ==> delegated[v] == Wrap64(Delegated(D, w, q, k, T, v, k))
  {
    var support := DelegateSupportPlain(w, q, n, k, T);
    var out := new nat[n](_ => 0);
    for v := 0 to n
      invariant forall u :: 0 <= u < v ==> out[u] == Wrap64(Delegated(D, w, q, k, T, u, k))
    {
      Wrap64Small(0);
      out[v] := AddDelegated(D, w, q, k, T, v, 0, 0, support);
    }
    delegated := out[..];
  }

  /** The delegated powers and the voter weights in the base slots. */
  method CheckVoterWeights(ev: Evaluator, g: Grid, dw: seq<Ciphertext>, weights: seq<Ciphertext>, D: seq<seq<nat>>,
      w: seq<int>, q: seq<nat>, n: nat, k: nat, T: nat)
    returns (passed: bool)
    requires Shape(ev, g, n, |dw|) && |weights| == |dw| && |q| == n
    requires RowsBounded(w, n, k, T) && IsDelegation(D, n, k)
    requires HoldsSpread(ev, g, dw, DelegatedPowers(D, w, q, k, T), 1, |dw|)
    requires HoldsSpread(ev, g, weights, Weights(D, w, q, k, T), 1, |dw|)
    ensures passed <==> Agree(DelegatedPowers(D, w, q, k, T), ev.t) && Agree(Weights(D, w, q, k, T), ev.t)
  {
    SelectsBounded(w, n, k, T);
    var expectedDw := DelegatedPlain(D, w, q, n, k, T);
    var dwPassed := VerifyBaseSlotCiphertexts(ev, g, dw, n, expectedDw, DelegatedPowers(D, w, q, k, T));
    var expected := DelegatedVoterWeightsPlain(D, w, q, n, k, T);
    var weightsPassed := VerifyBaseSlotCiphertexts(ev, g, weights, n, expected, Weights(D, w, q, k, T));
    passed := dwPassed && weightsPassed;
    WrapsAgree(expectedDw, DelegatedPowers(D, w, q, k, T), ev.t);
    WrapsAgree(expected, Weights(D, w, q, k, T), ev.t);
  }

  /** All values that a diagnostic run compares after its selections. */
  ghost predicate IntermediatesAgree(D: seq<seq<nat>>, w: seq<int>, q: seq<nat>, k: nat, T: nat, t: nat)
    requires |w| == |q| * k && IsDelegation(D, |q|, k) && t > 0
  {
    && Agree(RowsScaled(Selected(w, T), k, q), t) && Agree(Supports(w, q, k, T), t)
    && Agree(SelfPowers(w, q, k, T), t) && Agree(DelegatedPowers(D, w, q, k, T), t) && Agree(Weights(D, w, q, k, T), t)
  }

  /** With a total power below the modulus all of them agree, for every 0/1 matrix. */
  lemma PowerBelowModulusAgrees(D: seq<seq<nat>>, w: seq<int>, q: seq<nat>, k: nat, T: nat, t: nat)
    requires RowsBounded(w, |q|, k, T) && IsDelegation(D, |q|, k) && Boolean(D) && SumOf(q, |q|) < t <= TWO_64 && t > 0
    ensures IntermediatesAgree(D, w, q, k, T, t) && forall v :: 0 <= v < |q| ==> q[v] < t
  {
    var n := |q|;
    forall v | 0 <= v < n ensures q[v] < t {
      TermWithinSum(q, n, v);
    }
    forall i: nat | i < |w| ensures 0 <= RowsScaled(Selected(w, T), k, q)[i] < t {
      ScaledIndicatorBounded(w, q, n, k, T, i);
    }
    SmallAgree(RowsScaled(Selected(w, T), k, q), t);
    forall l | 0 <= l < k ensures 0 <= Supports(w, q, k, T)[l] < t {
      SupportWithinPower(w, q, k, T, l);
    }
    SmallAgree(Supports(w, q, k, T), t);
    WeightsAgree(D, w, q, k, T, t);
  }

  lemma WeightsAgree(D: seq<seq<nat>>, w: seq<int>, q: seq<nat>, k: nat, T: nat, t: nat)
    requires RowsBounded(w, |q|, k, T) && IsDelegation(D, |q|, k) && Boolean(D) && SumOf(q, |q|) < t <= TWO_64 && t > 0
    ensures Agree(SelfPowers(w, q, k, T), t) && Agree(DelegatedPowers(D, w, q, k, T), t)
    ensures Agree(Weights(D, w, q, k, T), t)
  {
    forall v | 0 <= v < |q|
      ensures 0 <= SelfPowers(w, q, k, T)[v] < t
      ensures 0 <= DelegatedPowers(D, w, q, k, T)[v] < t && 0 <= Weights(D, w, q, k, T)[v] < t
    {
      SelfPowerWithinPower(w, q, k, T, v);
      WeightWithinPower(D, w, q, k, T, v);
    }
    SmallAgree(SelfPowers(w, q, k, T), t);
    SmallAgree(DelegatedPowers(D, w, q, k, T), t);
    SmallAgree(Weights(D, w, q, k, T), t);
  }

  // ------------------------------------------------------ the checks of a period

  lemma WiderMask(choices: seq<int>, other: seq<int>, n: nat, width: nat, wide: nat, mask: seq<int>)
    requires width <= wide && ValidPeriod(choices, other, n, width) && IsMask(choices, other, n, wide, wide, n, mask)
    ensures IsMask(choices, other, n, width, wide, n, mask)
  {
  }

  lemma ZeroOneResidues(m: seq<int>, n: nat, width: nat, t: nat)
    requires 1 < t && |m| == n * width && width > 0
    requires forall v: nat, c: nat :: v < n && c < width ==> 0 <= Entry(m, width, v, c) <= 1
    ensures Residues(m, t) == m
  {
    SmallResidues(m, n, width, 1, t);
  }

  /** One component's payload of a received period against periodPlain. */
  method CheckPayload(ev: Evaluator, g: Grid, cts: seq<Ciphertext>, choices: seq<int>, other: seq<int>, n: nat,
      width: nat)
    returns (passed: bool)
    requires ev.Valid() && g.Valid() && g.cols == ev.cols && 0 < width <= g.blockSize && n <= |cts| * g.PerCiphertext()
    requires ValidPeriod(choices, other, n, width) && HoldsAll(ev, cts, Payloads(g, choices, n, |cts|))
    ensures passed
  {
    var expected, _ := PeriodPlain(choices, other, n, width);
    var _, wideMask := PeriodPlain(choices, other, n, g.blockSize);
    WiderMask(choices, other, n, width, g.blockSize, wideMask);
    forall i | 0 <= i < |cts| ensures ev.Holds(cts[i], Packed(g, expected, width, n, i)) {
      PackedPeriod(g, choices, other, n, width, expected, wideMask, i);
      assert Payloads(g, choices, n, |cts|)[i] == PayloadVector(g, choices, n, i);
    }
    ZeroOneResidues(expected, n, width, ev.t);
    PackedShows(ev, g, cts, expected, width, n);
    passed := VerifyPackedCiphertexts(ev, g, cts, width, n, expected, expected);
  }

  /** The shared mask of a received period, over whole blocks. */
  method CheckMask(ev: Evaluator, g: Grid, cts: seq<Ciphertext>, choices: seq<int>, other: seq<int>, n: nat,
      width: nat)
    returns (passed: bool)
    requires ev.Valid() && g.Valid() && g.cols == ev.cols && 0 < width <= g.blockSize && n <= |cts| * g.PerCiphertext()
    requires ValidPeriod(choices, other, n, width) && HoldsAll(ev, cts, Masks(g, choices, other, n, width, n, |cts|))
    ensures passed
  {
    var _, expected := PeriodPlain(choices, other, n, g.blockSize);
    var payload, _ := PeriodPlain(choices, other, n, width);
    WiderMask(choices, other, n, width, g.blockSize, expected);
    forall i | 0 <= i < |cts| ensures ev.Holds(cts[i], Packed(g, expected, g.blockSize, n, i)) {
      PackedPeriod(g, choices, other, n, width, payload, expected, i);
      assert Masks(g, choices, other, n, width, n, |cts|)[i] == MaskVector(g, choices, other, n, width, n, i);
    }
    ZeroOneResidues(expected, n, g.blockSize, ev.t);
    PackedShows(ev, g, cts, expected, g.blockSize, n);
    passed := VerifyPackedCiphertexts(ev, g, cts, g.blockSize, n, expected, expected);
  }

  /** The three comparisons of a received period. */
  method CheckPeriod(ev: Evaluator, g: Grid, a: PeriodAggregates, candidate: seq<int>, delegation: seq<int>, n: nat,
      b: nat, k: nat, count: nat)
    returns (passed: bool)
    requires ev.Valid() && g.Valid() && g.cols == ev.cols && 0 < b <= g.blockSize && 0 < k <= g.blockSize
    requires n <= count * g.PerCiphertext()
    requires ValidPeriod(candidate, delegation, n, b) && ValidPeriod(delegation, candidate, n, k)
    requires Received(ev, g, candidate, delegation, n, b, n, count, a)
    ensures passed
  {
    var candidatePassed := CheckPayload(ev, g, a.candidateInputs, candidate, delegation, n, b);
    var delegationPassed := CheckPayload(ev, g, a.delegationInputs, delegation, candidate, n, k);
    var maskPassed := CheckMask(ev, g, a.sharedMasks, candidate, delegation, n, b);
    passed := candidatePassed && delegationPassed && maskPassed;
  }
}
