/**
 * The encrypted tally on packed ciphertexts (main.go, weight preparation and phases
 * 4.3 to 4.7). Every phase is proved against the exact tally of TallySpec, for any
 * number of ciphertexts.
 */
module PackedTally {
  import opened Modular
  import opened Matrices
  import opened Packing
  import opened Slots
  import opened Bgv
  import opened Lagrange
  import opened TallySpec
  import opened PackedAlgebra
  import opened Streaming

  /** n voters fill `count` ciphertexts of the evaluator's shape, the last one not empty. */
  ghost predicate Shape(ev: Evaluator, g: Grid, n: nat, count: nat) {
    && ev.Valid() && g.Valid() && g.cols == ev.cols
    && count > 0 && n <= count * g.PerCiphertext() && (count - 1) * g.PerCiphertext() < n
  }

  ghost predicate HoldsSpread(ev: Evaluator, g: Grid, cts: seq<Ciphertext>, x: seq<int>, width: nat, count: nat)
    requires ev.Valid() && g.Valid()
    reads cts
  {
    |cts| == count && forall i :: 0 <= i < count ==> ev.Holds(cts[i], Spread(g, x, width, i))
  }

  lemma CiphertextUsed(g: Grid, n: nat, count: nat, i: nat)
    requires g.Valid() && i < count && (count - 1) * g.PerCiphertext() < n
    ensures i * g.PerCiphertext() < n
  {
    MulMonotone(i, count - 1, g.PerCiphertext(), g.PerCiphertext());
  }

  // ------------------------------------------------------------- preparation

  /** Fills the first `width` slots of every voter block of ciphertext i. */
  method SpreadSlots(g: Grid, x: seq<int>, width: nat, i: nat) returns (values: seq<int>)
    requires g.Valid() && width <= g.blockSize && i * g.PerCiphertext() < |x|
    ensures values == Spread(g, x, width, i)
  {
    var slots := new int[2 * g.cols](_ => 0);
    SpreadEnds(g, x, width, i);
    var start := i * g.PerCiphertext();
    assert slots[..] == SpreadUpTo(g, x, width, start, i);
    for local := 0 to VotersIn(g, |x|, i)
      invariant slots[..] == SpreadUpTo(g, x, width, start + local, i)
    {
      VoterInCiphertext(g, i, local);
      ghost var before := slots[..];
      var blockStart := g.BlockStart(local);
      BlockSlot(g, local, g.blockSize - 1);
      FillBlock(slots, blockStart, width, x[start + local]);
      forall s: nat | s < g.Slots() ensures slots[s] == SpreadUpTo(g, x, width, start + local + 1, i)[s] {
        SpreadStep(g, x, width, start + local, s);
        assert before[s] == SpreadUpTo(g, x, width, start + local, i)[s];
      }
    }
    values := slots[..];
  }

  lemma BaseSlotOf(g: Grid, row: nat, voter: nat, s: nat)
    requires g.Valid() && row < 2 && voter < g.perRow && s < g.Slots()
    ensures row * g.cols + voter * g.blockSize < g.Slots()
    ensures s == row * g.cols + voter * g.blockSize <==>
      g.RowOf(s) == row && g.ColOf(s) / g.blockSize == voter && g.ColOf(s) % g.blockSize == 0
  {
    VoterPosition(g, 0, row, voter);
    BlockSlot(g, row * g.perRow + voter, 0);
    DivModUnique(row * g.perRow + voter, row, voter, g.perRow);
    assert g.ColOf(s) == (g.ColOf(s) / g.blockSize) * g.blockSize + g.ColOf(s) % g.blockSize;
    assert s == g.RowOf(s) * g.cols + g.ColOf(s) by { assert g.RowOf(s) == 0 || g.RowOf(s) == 1; }
  }

  /** The mask with the rows before `row` and the first `voter` blocks of that row done. */
  predicate MaskedBefore(g: Grid, slots: seq<int>, row: nat, voter: nat)
    requires g.blockSize > 0
  {
    && |slots| == g.Slots()
    && forall s: nat :: s < g.Slots() ==> slots[s] == if MaskedAt(g, row, voter, s) then 1 else 0
  }

  predicate MaskedAt(g: Grid, row: nat, voter: nat, s: nat)
    requires g.blockSize > 0
  {
    && IsBaseColumn(g, g.ColOf(s))
    && (g.RowOf(s) < row || (g.RowOf(s) == row && g.ColOf(s) / g.blockSize < voter))
  }

  lemma MaskStep(g: Grid, slots: seq<int>, row: nat, voter: nat)
    requires g.Valid() && row < 2 && voter < g.perRow && MaskedBefore(g, slots, row, voter)
    ensures row * g.cols + voter * g.blockSize < g.Slots()
    ensures MaskedBefore(g, slots[row * g.cols + voter * g.blockSize := 1], row, voter + 1)
  {
    BaseSlotOf(g, row, voter, 0);
    var next := slots[row * g.cols + voter * g.blockSize := 1];
    forall s: nat | s < g.Slots()
      ensures next[s] == if MaskedAt(g, row, voter + 1, s) then 1 else 0
    {
      BaseSlotOf(g, row, voter, s);
    }
  }

  /** The structural mask of the base slots, row by row and block by block. */
  method BaseSlotMask(g: Grid) returns (mask: seq<int>)
    requires g.Valid()
    ensures mask == BaseMask(g)
  {
    var slots := new int[2 * g.cols](_ => 0);
    for row := 0 to 2
      invariant MaskedBefore(g, slots[..], row, 0)
    {
      for voter := 0 to g.perRow
        invariant MaskedBefore(g, slots[..], row, voter)
      {
        MaskStep(g, slots[..], row, voter);
        ghost var before := slots[..];
        var at := row * g.cols + voter * g.blockSize;
        slots[at] := 1;
        assert slots[..] == before[at := 1];
      }
    }
    mask := slots[..];
  }

  method PrepareWeight(ev: Evaluator, g: Grid, q: seq<int>, k: nat, i: nat, baseSlotMask: seq<int>)
    returns (ext: Ciphertext, base: Ciphertext)
    requires ev.Valid() && g.Valid() && g.cols == ev.cols && 0 < k <= g.blockSize && i * g.PerCiphertext() < |q|
    requires baseSlotMask == BaseMask(g)
    ensures ev.Holds(ext, Spread(g, q, k, i)) && ev.Holds(base, Spread(g, q, 1, i))
  {
    var slots := SpreadSlots(g, q, k, i);
    ext := ev.EncryptNew(slots);
    base := ev.MulPlainNew(ext, baseSlotMask, slots);
    SpreadTimesBaseMask(g, q, k, i);
  }

  /** Encrypted weights: replicated over the k delegation slots, and projected to the base slots. */
  method PrepareWeights(ev: Evaluator, g: Grid, q: seq<int>, k: nat, count: nat)
    returns (qExt: seq<Ciphertext>, qBase: seq<Ciphertext>)
    requires Shape(ev, g, |q|, count) && 0 < k <= g.blockSize
    ensures HoldsSpread(ev, g, qExt, q, k, count) && HoldsSpread(ev, g, qBase, q, 1, count)
  {
    var baseSlotMask := BaseSlotMask(g);
    qExt, qBase := [], [];
    for i := 0 to count
      invariant HoldsSpread(ev, g, qExt, q, k, i) && HoldsSpread(ev, g, qBase, q, 1, i)
    {
      CiphertextUsed(g, |q|, count, i);
      var ext, base := PrepareWeight(ev, g, q, k, i, baseSlotMask);
      qExt, qBase := qExt + [ext], qBase + [base];
    }
  }

  /** The shared logical ranges: ones over every voter's whole block. */
  method LogicalRanges(ev: Evaluator, g: Grid, n: nat, count: nat) returns (ranges: seq<seq<int>>)
    requires Shape(ev, g, n, count)
    ensures |ranges| == count && forall i :: 0 <= i < count ==> ranges[i] == Spread(g, Ones(n), g.blockSize, i)
  {
    ranges := [];
    for i := 0 to count
      invariant |ranges| == i && forall j :: 0 <= j < i ==> ranges[j] == Spread(g, Ones(n), g.blockSize, j)
    {
      CiphertextUsed(g, n, count, i);
      var range := SpreadSlots(g, Ones(n), g.blockSize, i);
      ranges := ranges + [range];
    }
  }

  // ------------------------------------------------- 4.3 majority selection

  ghost predicate TotalsInRange(m: seq<int>, n: nat, width: nat, T: nat) {
    |m| == n * width && forall v: nat, c: nat :: v < n && c < width ==> 0 <= Entry(m, width, v, c) <= T
  }

  /** Every ciphertext holds the polynomial's values at the slots of a packed matrix. */
  ghost predicate HoldsPolys(ev: Evaluator, g: Grid, cts: seq<Ciphertext>, coefficients: seq<nat>, m: seq<int>,
      width: nat, n: nat)
    requires ev.Valid() && g.Valid()
    reads cts
  {
    forall i :: 0 <= i < |cts| ==> ev.Holds(cts[i], PolyValues(coefficients, Packed(g, m, width, n, i)))
  }

  /** Replaces every ciphertext by the polynomial's value; for an indicator polynomial, that is the selection. */
  method SelectMajorities(ev: Evaluator, g: Grid, cts: seq<Ciphertext>, coefficients: seq<nat>, ghost T: nat,
      ghost m: seq<int>, ghost width: nat, ghost n: nat)
    returns (selected: seq<Ciphertext>)
    requires ev.Valid() && g.Valid() && HoldsPacked(ev, g, cts, m, width, n, |cts|)
    ensures |selected| == |cts| && HoldsPolys(ev, g, selected, coefficients, m, width, n)
    ensures IsIndicatorPolynomial(coefficients, T, ev.t) && TotalsInRange(m, n, width, T) ==>
      HoldsPacked(ev, g, selected, Selected(m, T), width, n, |cts|)
  {
    selected := cts;
    for i := 0 to |cts|
      invariant |selected| == |cts|
      invariant forall j :: i <= j < |cts| ==> selected[j] == cts[j] && ev.Holds(selected[j], Packed(g, m, width, n, j))
      invariant forall j :: 0 <= j < i ==> ev.Holds(selected[j], PolyValues(coefficients, Packed(g, m, width, n, j)))
    {
      var indicator := ev.EvaluatePolynomial(selected[i], coefficients, Packed(g, m, width, n, i));
      selected := selected[i := indicator];
    }
    if IsIndicatorPolynomial(coefficients, T, ev.t) && TotalsInRange(m, n, width, T) {
      PolysSelect(ev, g, selected, coefficients, T, m, width, n);
    }
  }

  lemma PolysSelect(ev: Evaluator, g: Grid, cts: seq<Ciphertext>, coefficients: seq<nat>, T: nat, m: seq<int>,
      width: nat, n: nat)
    requires ev.Valid() && g.Valid() && IsIndicatorPolynomial(coefficients, T, ev.t) && TotalsInRange(m, n, width, T)
    requires HoldsPolys(ev, g, cts, coefficients, m, width, n)
    ensures HoldsPacked(ev, g, cts, Selected(m, T), width, n, |cts|)
  {
    forall i | 0 <= i < |cts| ensures ev.Holds(cts[i], Packed(g, Selected(m, T), width, n, i)) {
      PolySelects(g, coefficients, T, ev.t, m, width, n, i);
    }
  }

  // ------------------------------------------------- 4.4 delegate support

  /** Rotate-and-add over the blocks of a ciphertext, then both rows together. */
  method SumVoters(ev: Evaluator, g: Grid, ct: Ciphertext, ghost v: seq<int>) returns (out: Ciphertext)
    requires ev.Valid() && g.Valid() && g.cols == ev.cols && ev.Holds(ct, v)
    ensures fresh(out) && ev.Holds(out, VoterSum(g, v))
  {
    var rows := ev.RotateAndAdd(ct, g.blockSize, g.perRow, v);
    var swapped := ev.RotateRowsNew(rows, RotationSum(v, g.cols, g.blockSize, g.perRow));
    out := ev.AddNew(rows, swapped, RotationSum(v, g.cols, g.blockSize, g.perRow),
                     SwappedRows(RotationSum(v, g.cols, g.blockSize, g.perRow), g.cols));
  }

  ghost function VoterSum(g: Grid, v: seq<int>): (r: seq<int>)
    requires |v| == 2 * g.cols
    ensures |r| == |v|
  {
    var sums := RotationSum(v, g.cols, g.blockSize, g.perRow);
    Plus(sums, SwappedRows(sums, g.cols))
  }

  /** The voter sums of the first `count` ciphertexts, added up. */
  ghost function AllVoters(g: Grid, m: seq<int>, width: nat, n: nat, count: nat): (r: seq<int>)
    requires g.Valid() && count > 0
    ensures |r| == g.Slots()
  {
    if count == 1 then VoterSum(g, Packed(g, m, width, n, 0))
    else Plus(AllVoters(g, m, width, n, count - 1), VoterSum(g, Packed(g, m, width, n, count - 1)))
  }

  /** i * g.PerCiphertext(), one ciphertext at a time. */
  ghost function VotersBelow(g: Grid, i: nat): nat {
    if i == 0 then 0 else VotersBelow(g, i - 1) + g.PerCiphertext()
  }

  lemma {:induction false} VotersBelowIsProduct(g: Grid, i: nat)
    ensures VotersBelow(g, i) == i * g.PerCiphertext()
  {
    if i > 0 {
      VotersBelowIsProduct(g, i - 1);
      Distribute(g.PerCiphertext(), i - 1, 1);
    }
  }

  lemma OneCiphertextSum(g: Grid, m: seq<int>, width: nat, n: nat, i: nat, c: nat)
    requires g.Valid() && |m| == n * width && width <= g.blockSize && c < width
    ensures c < g.cols
    ensures var v := VoterSum(g, Packed(g, m, width, n, i));
      v[c] == ColumnSum(m, width, c, VotersBelow(g, i), VotersBelow(g, i + 1)) == v[g.cols + c]
  {
    VotersBelowIsProduct(g, i);
    RowsTotal(g, m, width, n, i, c);
  }

  lemma AllVotersStep(g: Grid, m: seq<int>, width: nat, n: nat, count: nat, s: nat)
    requires g.Valid() && count > 0 && s < g.Slots()
    ensures AllVoters(g, m, width, n, count + 1)[s]
         == AllVoters(g, m, width, n, count)[s] + VoterSum(g, Packed(g, m, width, n, count))[s]
  {
  }

  lemma OneCiphertextAt(g: Grid, m: seq<int>, width: nat, n: nat, i: nat, c: nat, s: nat)
    requires g.Valid() && |m| == n * width && width <= g.blockSize && c < width && (s == c || s == g.cols + c)
    ensures s < g.Slots()
    ensures VoterSum(g, Packed(g, m, width, n, i))[s]
      == ColumnSum(m, width, c, VotersBelow(g, i), VotersBelow(g, i + 1))
  {
    OneCiphertextSum(g, m, width, n, i, c);
  }

  /** In the first columns of either row this is the column sum over all those voters. */
  lemma {:induction false} AllVotersSum(g: Grid, m: seq<int>, width: nat, n: nat, count: nat, c: nat, s: nat)
    requires g.Valid() && count > 0 && |m| == n * width && width <= g.blockSize && c < width
    requires (s == c || s == g.cols + c)
    ensures s < g.Slots()
    ensures AllVoters(g, m, width, n, count)[s] == ColumnSum(m, width, c, 0, VotersBelow(g, count))
  {
    OneCiphertextAt(g, m, width, n, count - 1, c, s);
    if count == 1 {
      assert VotersBelow(g, 0) == 0;
    } else {
      AllVotersSum(g, m, width, n, count - 1, c, s);
      NextCiphertextSum(g, m, width, n, count - 1, c, s);
    }
  }

  lemma NextCiphertextSum(g: Grid, m: seq<int>, width: nat, n: nat, count: nat, c: nat, s: nat)
    requires g.Valid() && count > 0 && s < g.Slots()
    requires AllVoters(g, m, width, n, count)[s] == ColumnSum(m, width, c, 0, VotersBelow(g, count))
    requires VoterSum(g, Packed(g, m, width, n, count))[s]
      == ColumnSum(m, width, c, VotersBelow(g, count), VotersBelow(g, count + 1))
    ensures AllVoters(g, m, width, n, count + 1)[s] == ColumnSum(m, width, c, 0, VotersBelow(g, count + 1))
  {
    ColumnSumSplit(m, width, c, 0, VotersBelow(g, count), VotersBelow(g, count + 1));
    AllVotersStep(g, m, width, n, count, s);
  }

  /** Padding voters add nothing. */
  lemma SumOverPadding(g: Grid, m: seq<int>, width: nat, n: nat, count: nat, c: nat)
    requires g.Valid() && |m| == n * width && n <= count * g.PerCiphertext()
    ensures ColumnSum(m, width, c, 0, VotersBelow(g, count)) == ColumnSum(m, width, c, 0, n)
  {
    VotersBelowIsProduct(g, count);
    ColumnSumSplit(m, width, c, 0, n, VotersBelow(g, count));
    ColumnSumBeyond(m, width, c, n, n, VotersBelow(g, count));
  }

  /** With padding voters, the voter sums are the column sums of the whole matrix. */
  lemma AllVotersTotal(g: Grid, m: seq<int>, width: nat, n: nat, count: nat, c: nat)
    requires g.Valid() && count > 0 && n <= count * g.PerCiphertext() && |m| == n * width && width <= g.blockSize
    requires c < width
    ensures c < g.cols
    ensures AllVoters(g, m, width, n, count)[c] == ColumnSum(m, width, c, 0, n)
      == AllVoters(g, m, width, n, count)[g.cols + c]
  {
    AllVotersSum(g, m, width, n, count, c, c);
    AllVotersSum(g, m, width, n, count, c, g.cols + c);
    SumOverPadding(g, m, width, n, count, c);
  }

  function Supports(w: seq<int>, q: seq<int>, k: nat, T: nat): (r: seq<int>)
    requires |w| == |q| * k
    ensures |r| == k
  {
    seq(k, l requires 0 <= l < k => Support(w, q, k, T, l))
  }

  method WeightDelegations(ev: Evaluator, g: Grid, dCts: seq<Ciphertext>, qExt: seq<Ciphertext>, ghost m: seq<int>,
      ghost q: seq<int>, ghost k: nat)
    returns (weighted: seq<Ciphertext>)
    requires ev.Valid() && g.Valid() && |m| == |q| * k
    requires HoldsPacked(ev, g, dCts, m, k, |q|, |dCts|) && HoldsSpread(ev, g, qExt, q, k, |dCts|)
    ensures HoldsPacked(ev, g, weighted, RowsScaled(m, k, q), k, |q|, |dCts|)
  {
    weighted := [];
    for i := 0 to |dCts|
      invariant HoldsPacked(ev, g, weighted, RowsScaled(m, k, q), k, |q|, i)
    {
      var product := ev.MulRelinNew(dCts[i], qExt[i], Packed(g, m, k, |q|, i), Spread(g, q, k, i));
      PackedTimesSpread(g, m, k, q, i);
      weighted := weighted + [product];
    }
  }

  method DelegateSlotMask(g: Grid, k: nat) returns (mask: seq<int>)
    requires g.Valid() && k <= g.cols
    ensures mask == DelegateMask(g, k)
  {
    var slots := new int[2 * g.cols](_ => 0);
    for row := 0 to 2
      invariant forall s: nat :: s < g.Slots() ==> slots[s] == if g.RowOf(s) < row && g.ColOf(s) < k then 1 else 0
    {
      assert row == 0 || row == 1;
      var rowBase := row * g.cols;
      FillBlock(slots, rowBase, k, 1);
    }
    mask := slots[..];
  }

  /** Masked to the first k columns, the sums over all voters are the delegate supports. */
  lemma MaskedSupport(g: Grid, w: seq<int>, q: seq<int>, k: nat, T: nat, count: nat)
    requires g.Valid() && count > 0 && |q| <= count * g.PerCiphertext() && k <= g.blockSize <= g.cols && |w| == |q| * k
    ensures Hadamard(AllVoters(g, RowsScaled(Selected(w, T), k, q), k, |q|, count), DelegateMask(g, k))
         == Repeated(g, Supports(w, q, k, T))
  {
    var m := RowsScaled(Selected(w, T), k, q);
    var total := AllVoters(g, m, k, |q|, count);
    forall l: nat | l < k
      ensures total[l] == Supports(w, q, k, T)[l] && total[g.cols + l] == Supports(w, q, k, T)[l]
    {
      AllVotersTotal(g, m, k, |q|, count, l);
    }
    MaskedColumns(g, total, Supports(w, q, k, T));
  }

  method DelegateSupport(ev: Evaluator, g: Grid, weighted: seq<Ciphertext>, ghost w: seq<int>, ghost q: seq<int>,
      k: nat, ghost T: nat)
    returns (support: Ciphertext)
    requires Shape(ev, g, |q|, |weighted|) && k <= g.blockSize && |w| == |q| * k
    requires HoldsPacked(ev, g, weighted, RowsScaled(Selected(w, T), k, q), k, |q|, |weighted|)
    ensures fresh(support) && ev.Holds(support, Repeated(g, Supports(w, q, k, T)))
  {
    ghost var m := RowsScaled(Selected(w, T), k, q);
    var acc := SumVoters(ev, g, weighted[0], Packed(g, m, k, |q|, 0));
    for i := 1 to |weighted|
      invariant fresh(acc) && acc !in weighted
      invariant HoldsPacked(ev, g, weighted, m, k, |q|, |weighted|)
      invariant ev.Holds(acc, AllVoters(g, m, k, |q|, i))
    {
      var partial := SumVoters(ev, g, weighted[i], Packed(g, m, k, |q|, i));
      ev.AddInPlace(acc, partial, AllVoters(g, m, k, |q|, i), VoterSum(g, Packed(g, m, k, |q|, i)));
    }
    MulMonotone(1, g.perRow, g.blockSize, g.blockSize);
    var mask := DelegateSlotMask(g, k);
    support := ev.MulPlainNew(acc, mask, AllVoters(g, m, k, |q|, |weighted|));
    MaskedSupport(g, w, q, k, T, |weighted|);
  }

  // ------------------------------------------------- 4.5 self power

  /** One ciphertext of dTilde * q: 1 minus the block's selection sum, times the base weight. */
  method SelfPowerCiphertext(ev: Evaluator, g: Grid, dCt: Ciphertext, base: Ciphertext, baseSlotMask: seq<int>,
      ghost w: seq<int>, ghost q: seq<int>, k: nat, ghost T: nat, ghost i: nat)
    returns (power: Ciphertext)
    requires ev.Valid() && g.Valid() && g.cols == ev.cols && k <= g.blockSize && |w| == |q| * k
    requires baseSlotMask == BaseMask(g)
    requires ev.Holds(dCt, Packed(g, Selected(w, T), k, |q|, i)) && ev.Holds(base, Base(g, q, i))
    ensures fresh(power) && ev.Holds(power, Base(g, SelfPowers(w, q, k, T), i))
  {
    ghost var p := Packed(g, Selected(w, T), k, |q|, i);
    ghost var sums := RotationSum(p, ev.cols, 1, k);
    var rowSums := ev.RotateAndAdd(dCt, 1, k, p);
    var negated := ev.NegateNew(rowSums, sums);
    var selfIndicator := ev.AddPlainNew(negated, baseSlotMask, Negated(sums));
    power := ev.MulRelinNew(selfIndicator, base, Plus(Negated(sums), baseSlotMask), Base(g, q, i));
    SelfPowerStep(g, w, q, k, T, i);
  }

  method SelfPowerCiphertexts(ev: Evaluator, g: Grid, dCts: seq<Ciphertext>, qBase: seq<Ciphertext>,
      baseSlotMask: seq<int>, ghost w: seq<int>, ghost q: seq<int>, k: nat, ghost T: nat)
    returns (dTilde: seq<Ciphertext>)
    requires ev.Valid() && g.Valid() && g.cols == ev.cols && k <= g.blockSize && |w| == |q| * k
    requires baseSlotMask == BaseMask(g)
    requires HoldsPacked(ev, g, dCts, Selected(w, T), k, |q|, |dCts|) && HoldsSpread(ev, g, qBase, q, 1, |dCts|)
    ensures HoldsSpread(ev, g, dTilde, SelfPowers(w, q, k, T), 1, |dCts|)
  {
    dTilde := [];
    for i := 0 to |dCts|
      invariant HoldsSpread(ev, g, dTilde, SelfPowers(w, q, k, T), 1, i)
    {
      var power := SelfPowerCiphertext(ev, g, dCts[i], qBase[i], baseSlotMask, w, q, k, T, i);
      dTilde := dTilde + [power];
    }
  }

  // ------------------------------------------------- 4.6 delegated power

  function DelegatedPowers(D: seq<seq<nat>>, w: seq<int>, q: seq<int>, k: nat, T: nat): (r: seq<int>)
    requires |w| == |q| * k && IsDelegation(D, |q|, k)
    ensures |r| == |q|
  {
    seq(|q|, v requires 0 <= v < |q| => Delegated(D, w, q, k, T, v, k))
  }

  /** One one-hot mask per local voter position that occurs. */
  method TargetMasks(g: Grid, n: nat) returns (masks: seq<seq<int>>)
    requires g.Valid()
    ensures |masks| == (if n < g.PerCiphertext() then n else g.PerCiphertext())
    ensures forall local :: 0 <= local < |masks| ==> masks[local] == Target(g.Slots(), g.BlockStart(local))
  {
    masks := [];
    for local := 0 to if n < g.PerCiphertext() then n else g.PerCiphertext()
      invariant |masks| == local
      invariant forall l :: 0 <= l < local ==> masks[l] == Target(g.Slots(), g.BlockStart(l))
    {
      var slots := new int[2 * g.cols](_ => 0);
      BlockSlot(g, local, 0);
      slots[g.BlockStart(local)] := 1;
      assert slots[..] == Target(g.Slots(), g.BlockStart(local));
      masks := masks + [slots[..]];
    }
  }

  lemma SpikesJoin(before: seq<int>, n: nat, at: nat, x: int, y: int)
    requires |before| == n
    ensures Plus(Plus(before, SpikeVector(n, at, x)), SpikeVector(n, at, y)) == Plus(before, SpikeVector(n, at, x + y))
    ensures Plus(before, SpikeVector(n, at, 0)) == before
  {
  }

  /** Rotates one delegate's support to the voter's base slot and adds it in place. */
  method AddDelegate(ev: Evaluator, g: Grid, support: Ciphertext, ctDw: Ciphertext, local: nat, l: nat,
      mask: seq<int>, ghost x: seq<int>, ghost before: seq<int>)
    requires ev.Valid() && g.Valid() && g.cols == ev.cols && l < |x| <= g.blockSize
    requires local < g.PerCiphertext() && mask == Target(g.Slots(), g.BlockStart(local))
    requires support != ctDw && ev.Holds(support, Repeated(g, x)) && ev.Holds(ctDw, before)
    modifies ctDw
    ensures ev.Holds(ctDw, Plus(before, SpikeVector(g.Slots(), g.BlockStart(local), x[l])))
  {
    var shift := l - g.BlockStart(local);
    var rotated := ev.RotateColumnsNew(support, shift, Repeated(g, x));
    var term := ev.MulPlainNew(rotated, mask, RotatedColumns(Repeated(g, x), g.cols, shift));
    SupportReachesVoter(g, x, local, l);
    ev.AddInPlace(ctDw, term, before, SpikeVector(g.Slots(), g.BlockStart(local), x[l]));
  }

  /** The delegates of one voter. */
  method AddVoterDelegates(ev: Evaluator, g: Grid, D: seq<seq<nat>>, support: Ciphertext, ctDw: Ciphertext,
      local: nat, voter: nat, mask: seq<int>, ghost w: seq<int>, ghost q: seq<int>, k: nat, ghost T: nat,
      ghost before: seq<int>)
    requires ev.Valid() && g.Valid() && g.cols == ev.cols && k <= g.blockSize && |w| == |q| * k
    requires IsDelegation(D, |q|, k) && Boolean(D)
    requires voter < |q| && local < g.PerCiphertext() && mask == Target(g.Slots(), g.BlockStart(local))
    requires support != ctDw && ev.Holds(support, Repeated(g, Supports(w, q, k, T))) && ev.Holds(ctDw, before)
    modifies ctDw
    ensures ev.Holds(ctDw,
                     Plus(before, SpikeVector(g.Slots(), g.BlockStart(local), Delegated(D, w, q, k, T, voter, k))))
  {
    ghost var n, at := g.Slots(), g.BlockStart(local);
    ghost var sum := 0;
    SpikesJoin(before, n, at, 0, 0);
    for l := 0 to k
      invariant ev.Holds(support, Repeated(g, Supports(w, q, k, T)))
      invariant sum == Delegated(D, w, q, k, T, voter, l)
      invariant ev.Holds(ctDw, Plus(before, SpikeVector(n, at, sum)))
    {
      if D[voter][l] == 0 {
        continue;
      }
      AddDelegate(ev, g, support, ctDw, local, l, mask, Supports(w, q, k, T), Plus(before, SpikeVector(n, at, sum)));
      SpikesJoin(before, n, at, sum, Support(w, q, k, T, l));
      sum := sum + Support(w, q, k, T, l);
    }
  }

  /** One voter's delegates extend the base vector of the voter's ciphertext. */
  method AddVoter(ev: Evaluator, g: Grid, D: seq<seq<nat>>, support: Ciphertext, ctDw: Ciphertext, local: nat,
      voter: nat, i: nat, mask: seq<int>, ghost w: seq<int>, ghost q: seq<int>, k: nat, ghost T: nat)
    requires ev.Valid() && g.Valid() && g.cols == ev.cols && k <= g.blockSize && |w| == |q| * k
    requires IsDelegation(D, |q|, k) && Boolean(D) && voter < |q| && local < g.PerCiphertext()
    requires CiphertextOf(g, voter) == i && LocalOf(g, voter) == local && mask == Target(g.Slots(), g.BlockStart(local))
    requires support != ctDw && ev.Holds(support, Repeated(g, Supports(w, q, k, T)))
    requires ev.Holds(ctDw, SpreadUpTo(g, DelegatedPowers(D, w, q, k, T), 1, voter, i))
    modifies ctDw
    ensures ev.Holds(ctDw, SpreadUpTo(g, DelegatedPowers(D, w, q, k, T), 1, voter + 1, i))
  {
    ghost var x := DelegatedPowers(D, w, q, k, T);
    AddVoterDelegates(ev, g, D, support, ctDw, local, voter, mask, w, q, k, T, SpreadUpTo(g, x, 1, voter, i));
    BaseStep(g, x, voter);
  }

  /** D times the support, in the base slots of ciphertext i. */
  method DelegatedCiphertext(ev: Evaluator, g: Grid, D: seq<seq<nat>>, support: Ciphertext, masks: seq<seq<int>>,
      i: nat, n: nat, ghost w: seq<int>, ghost q: seq<int>, k: nat, ghost T: nat)
    returns (ctDw: Ciphertext)
    requires ev.Valid() && g.Valid() && g.cols == ev.cols && k <= g.blockSize && |w| == |q| * k
    requires IsDelegation(D, |q|, k) && Boolean(D)
    requires n == |q| && i * g.PerCiphertext() < n
    requires |masks| == (if n < g.PerCiphertext() then n else g.PerCiphertext())
    requires forall local :: 0 <= local < |masks| ==> masks[local] == Target(g.Slots(), g.BlockStart(local))
    requires ev.Holds(support, Repeated(g, Supports(w, q, k, T)))
    ensures fresh(ctDw) && ev.Holds(ctDw, Base(g, DelegatedPowers(D, w, q, k, T), i))
  {
    ghost var x := DelegatedPowers(D, w, q, k, T);
    var start := i * g.PerCiphertext();
    ctDw := ev.NewCiphertext();
    SpreadEnds(g, x, 1, i);
    for local := 0 to VotersIn(g, n, i)
      invariant fresh(ctDw) && ev.Holds(support, Repeated(g, Supports(w, q, k, T)))
      invariant ev.Holds(ctDw, SpreadUpTo(g, x, 1, start + local, i))
    {
      VoterInCiphertext(g, i, local);
      AddVoter(ev, g, D, support, ctDw, local, start + local, i, masks[local], w, q, k, T);
    }
  }

  /** D w_d and D w_d + dTilde of one ciphertext. */
  method VoterWeight(ev: Evaluator, g: Grid, D: seq<seq<nat>>, support: Ciphertext, dTilde: Ciphertext,
      masks: seq<seq<int>>, i: nat, n: nat, ghost w: seq<int>, ghost q: seq<int>, k: nat, ghost T: nat)
    returns (ctDw: Ciphertext, weight: Ciphertext)
    requires ev.Valid() && g.Valid() && g.cols == ev.cols && k <= g.blockSize && |w| == |q| * k
    requires IsDelegation(D, |q|, k) && Boolean(D) && n == |q| && i * g.PerCiphertext() < n
    requires |masks| == (if n < g.PerCiphertext() then n else g.PerCiphertext())
    requires forall local :: 0 <= local < |masks| ==> masks[local] == Target(g.Slots(), g.BlockStart(local))
    requires ev.Holds(support, Repeated(g, Supports(w, q, k, T)))
    requires ev.Holds(dTilde, Base(g, SelfPowers(w, q, k, T), i))
    ensures fresh(ctDw) && ev.Holds(ctDw, Base(g, DelegatedPowers(D, w, q, k, T), i))
    ensures fresh(weight) && ev.Holds(weight, Base(g, Weights(D, w, q, k, T), i))
  {
    ctDw := DelegatedCiphertext(ev, g, D, support, masks, i, n, w, q, k, T);
    weight := ev.AddNew(ctDw, dTilde, Base(g, DelegatedPowers(D, w, q, k, T), i), Base(g, SelfPowers(w, q, k, T), i));
    BaseAdds(g, DelegatedPowers(D, w, q, k, T), SelfPowers(w, q, k, T), Weights(D, w, q, k, T), i);
  }

  /** D w_d + dTilde for every ciphertext. */
  method VoterWeights(ev: Evaluator, g: Grid, D: seq<seq<nat>>, support: Ciphertext, dTilde: seq<Ciphertext>, n: nat,
      ghost w: seq<int>, ghost q: seq<int>, k: nat, ghost T: nat)
    returns (dw: seq<Ciphertext>, weights: seq<Ciphertext>)
    requires Shape(ev, g, n, |dTilde|) && n == |q| && k <= g.blockSize && |w| == |q| * k && IsDelegation(D, |q|, k)
    requires Boolean(D)
    requires ev.Holds(support, Repeated(g, Supports(w, q, k, T)))
    requires HoldsSpread(ev, g, dTilde, SelfPowers(w, q, k, T), 1, |dTilde|)
    ensures HoldsSpread(ev, g, dw, DelegatedPowers(D, w, q, k, T), 1, |dTilde|)
    ensures HoldsSpread(ev, g, weights, Weights(D, w, q, k, T), 1, |dTilde|)
  {
    ghost var delegated, total := DelegatedPowers(D, w, q, k, T), Weights(D, w, q, k, T);
    var masks := TargetMasks(g, n);
    dw, weights := [], [];
    for i := 0 to |dTilde|
      invariant HoldsSpread(ev, g, dw, delegated, 1, i)
      invariant HoldsSpread(ev, g, weights, total, 1, i)
    {
      CiphertextUsed(g, n, |dTilde|, i);
      var ctDw, sum := VoterWeight(ev, g, D, support, dTilde[i], masks, i, n, w, q, k, T);
      dw, weights := dw + [ctDw], weights + [sum];
    }
  }

  // ------------------------------------------------- 4.7 weighted votes

  /** Copies a base weight over the first b slots, adding shifted copies in place. */
  method ExpandWeight(ev: Evaluator, g: Grid, ct: Ciphertext, b: nat, ghost v: seq<int>) returns (expanded: Ciphertext)
    requires ev.Valid() && g.cols == ev.cols && 0 < b && ev.Holds(ct, v)
    ensures fresh(expanded) && ev.Holds(expanded, ExpansionSum(v, g.cols, b))
  {
    expanded := ev.CopyNew(ct);
    for shift := 1 to b
      invariant fresh(expanded) && ev.Holds(ct, v)
      invariant ev.Holds(expanded, ExpansionSum(v, g.cols, shift))
    {
      var rotated := ev.RotateColumnsNew(ct, 0 - shift, v);
      ev.AddInPlace(expanded, rotated, ExpansionSum(v, g.cols, shift), RotatedColumns(v, g.cols, 0 - shift));
    }
  }

  /** Every base weight is copied over the first slots of its block. */
  ghost predicate HoldsExpanded(ev: Evaluator, g: Grid, expanded: seq<Ciphertext>, x: seq<int>, b: nat)
    requires ev.Valid() && g.Valid() && g.cols == ev.cols && b > 0
    reads expanded
  {
    forall i :: 0 <= i < |expanded| ==> ev.Holds(expanded[i], ExpansionSum(Base(g, x, i), g.cols, b))
  }

  method ExpandWeights(ev: Evaluator, g: Grid, weights: seq<Ciphertext>, b: nat, ghost x: seq<int>)
    returns (expanded: seq<Ciphertext>)
    requires ev.Valid() && g.Valid() && g.cols == ev.cols && 0 < b && HoldsSpread(ev, g, weights, x, 1, |weights|)
    ensures |expanded| == |weights| && HoldsExpanded(ev, g, expanded, x, b)
  {
    expanded := [];
    for i := 0 to |weights|
      invariant |expanded| == i
      invariant HoldsExpanded(ev, g, expanded, x, b)
    {
      var ct := ExpandWeight(ev, g, weights[i], b, Base(g, x, i));
      expanded := expanded + [ct];
    }
  }

  /** The packed weighted votes of the first `count` ciphertexts, added up. */
  ghost function VotesUpTo(g: Grid, m: seq<int>, b: nat, n: nat, count: nat): (r: seq<int>)
    requires g.Valid() && count > 0
    ensures |r| == g.Slots()
  {
    if count == 1 then Packed(g, m, b, n, 0)
    else Plus(VotesUpTo(g, m, b, n, count - 1), Packed(g, m, b, n, count - 1))
  }

  /** Adding ciphertexts before or after the voter sums makes no difference. */
  lemma {:induction false} VotesThenVoters(g: Grid, m: seq<int>, b: nat, n: nat, count: nat)
    requires g.Valid() && count > 0
    ensures VoterSum(g, VotesUpTo(g, m, b, n, count)) == AllVoters(g, m, b, n, count)
  {
    if count > 1 {
      VotesThenVoters(g, m, b, n, count - 1);
      VoterSumPlus(g, VotesUpTo(g, m, b, n, count - 1), Packed(g, m, b, n, count - 1));
    }
  }

  lemma VoterSumPlus(g: Grid, u: seq<int>, v: seq<int>)
    requires |u| == |v| == 2 * g.cols
    ensures VoterSum(g, Plus(u, v)) == Plus(VoterSum(g, u), VoterSum(g, v))
  {
    RotationSumPlus(u, v, g.cols, g.blockSize, g.perRow);
  }

  method WeightedVotes(ev: Evaluator, g: Grid, expanded: seq<Ciphertext>, vCts: seq<Ciphertext>, ghost m: seq<int>,
      b: nat, ghost x: seq<int>)
    returns (acc: Ciphertext)
    requires ev.Valid() && g.Valid() && g.cols == ev.cols && 0 < b <= g.blockSize && |m| == |x| * b
    requires |expanded| == |vCts| > 0 && HoldsPacked(ev, g, vCts, m, b, |x|, |vCts|)
    requires HoldsExpanded(ev, g, expanded, x, b)
    ensures fresh(acc) && ev.Holds(acc, VotesUpTo(g, RowsScaled(m, b, x), b, |x|, |vCts|))
  {
    ghost var votes := RowsScaled(m, b, x);
    acc := ev.MulRelinNew(expanded[0], vCts[0], ExpansionSum(Base(g, x, 0), g.cols, b), Packed(g, m, b, |x|, 0));
    VotesWeighted(g, m, b, x, 0);
    for i := 1 to |vCts|
      invariant fresh(acc) && acc !in expanded && acc !in vCts
      invariant HoldsPacked(ev, g, vCts, m, b, |x|, |vCts|)
      invariant HoldsExpanded(ev, g, expanded, x, b)
      invariant ev.Holds(acc, VotesUpTo(g, votes, b, |x|, i))
    {
      var part := ev.MulRelinNew(expanded[i], vCts[i], ExpansionSum(Base(g, x, i), g.cols, b), Packed(g, m, b, |x|, i));
      VotesWeighted(g, m, b, x, i);
      ev.AddInPlace(acc, part, VotesUpTo(g, votes, b, |x|, i), Packed(g, votes, b, |x|, i));
    }
  }

  /** The final product and aggregation: candidate c's tally is in slot c of both rows. */
  method FinalTally(ev: Evaluator, g: Grid, weights: seq<Ciphertext>, vCts: seq<Ciphertext>, b: nat,
      ghost D: seq<seq<nat>>, ghost w: seq<int>, ghost t: seq<int>, ghost q: seq<int>, ghost k: nat, ghost T: nat)
    returns (result: Ciphertext)
    requires Shape(ev, g, |q|, |vCts|) && |weights| == |vCts| && 0 < b <= g.blockSize
    requires |w| == |q| * k && |t| == |q| * b && IsDelegation(D, |q|, k)
    requires HoldsSpread(ev, g, weights, Weights(D, w, q, k, T), 1, |weights|)
    requires HoldsPacked(ev, g, vCts, Selected(t, T), b, |q|, |vCts|)
    ensures b <= g.cols && |result.slots| == 2 * g.cols
    ensures forall c :: 0 <= c < b ==>
      result.slots[c] == Tally(D, w, t, q, b, k, T, c) % ev.t == result.slots[g.cols + c]
  {
    ghost var x := Weights(D, w, q, k, T);
    ghost var votes := RowsScaled(Selected(t, T), b, x);
    var expanded := ExpandWeights(ev, g, weights, b, x);
    var acc := WeightedVotes(ev, g, expanded, vCts, Selected(t, T), b, x);
    result := SumVoters(ev, g, acc, VotesUpTo(g, votes, b, |x|, |vCts|));
    VotesThenVoters(g, votes, b, |x|, |vCts|);
    MulMonotone(1, g.perRow, g.blockSize, g.blockSize);
    forall c: nat | c < b
      ensures result.slots[c] == Tally(D, w, t, q, b, k, T, c) % ev.t == result.slots[g.cols + c]
    {
      AllVotersTotal(g, votes, b, |x|, |vCts|, c);
    }
  }
}
