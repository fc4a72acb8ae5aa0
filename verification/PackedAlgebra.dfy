/**
 * What rotations, masks and row swaps do to packed matrices. Each lemma is one step
 * of the packed tally; slots outside the used blocks are shown never to contribute.
 */
module PackedAlgebra {
  import opened Modular
  import opened Matrices
  import opened Packing
  import opened Slots
  import opened Lagrange
  import opened TallySpec

  /** Every voter's number in the first `width` slots of the voter's block. */
  function SpreadAt(g: Grid, x: seq<int>, width: nat, i: nat, s: nat): int
    requires g.blockSize > 0
  {
    if g.ColOf(s) / g.blockSize < g.perRow && VoterAt(g, i, s) < |x| && g.ColOf(s) % g.blockSize < width
    then x[VoterAt(g, i, s)] else 0
  }

  function Spread(g: Grid, x: seq<int>, width: nat, i: nat): seq<int>
    requires g.blockSize > 0
  {
    seq(g.Slots(), s requires 0 <= s < g.Slots() => SpreadAt(g, x, width, i, s))
  }

  /** One number per voter, in the base slot of the voter's block. */
  function Base(g: Grid, x: seq<int>, i: nat): seq<int>
    requires g.blockSize > 0
  {
    Spread(g, x, 1, i)
  }

  /** The structural mask of all base slots, padding voters included. */
  function BaseMask(g: Grid): seq<int>
    requires g.blockSize > 0
  {
    seq(g.Slots(), s requires 0 <= s < g.Slots() =>
      if g.ColOf(s) / g.blockSize < g.perRow && g.ColOf(s) % g.blockSize == 0 then 1 else 0)
  }

  /** A vector over the columns, repeated in both rows. */
  function Repeated(g: Grid, x: seq<int>): seq<int> {
    seq(g.Slots(), s requires 0 <= s < g.Slots() => if g.ColOf(s) < |x| then x[g.ColOf(s)] else 0)
  }

  function Ones(n: nat): seq<int> {
    seq(n, _ => 1)
  }

  // -------------------------------------------------------- majority selection

  /** The interpolated polynomial selects majorities in every slot, used or not. */
  lemma PolySelects(g: Grid, c: seq<nat>, T: nat, t: nat, m: seq<int>, width: nat, n: nat, i: nat)
    requires g.Valid() && t > 1 && IsIndicatorPolynomial(c, T, t)
    requires |m| == n * width && forall v: nat, j: nat :: v < n && j < width ==> 0 <= Entry(m, width, v, j) <= T
    ensures Residues(PolyValues(c, Packed(g, m, width, n, i)), t) == Residues(Packed(g, Selected(m, T), width, n, i), t)
  {
    forall s: nat | s < g.Slots()
      ensures Eval(c, PackedAt(g, m, width, n, i, s)) % t == PackedAt(g, Selected(m, T), width, n, i, s) % t
    {
      var voter, off := VoterAt(g, i, s), g.ColOf(s) % g.blockSize;
      if g.ColOf(s) / g.blockSize < g.perRow && voter < n && off < width {
        SelectedEntry(m, T, n, width, voter, off);
      }
      var x := PackedAt(g, m, width, n, i, s);
      assert 0 <= x <= T && PackedAt(g, Selected(m, T), width, n, i, s) == Indicator(T, x);
      SmallMod(Indicator(T, x), t);
    }
  }

  // --------------------------------------------------------- weighting and masks

  lemma PackedTimesSpread(g: Grid, m: seq<int>, width: nat, q: seq<int>, i: nat)
    requires g.Valid() && |m| == |q| * width
    ensures Hadamard(Packed(g, m, width, |q|, i), Spread(g, q, width, i))
         == Packed(g, RowsScaled(m, width, q), width, |q|, i)
  {
    forall s: nat | s < g.Slots()
      ensures PackedAt(g, m, width, |q|, i, s) * SpreadAt(g, q, width, i, s)
           == PackedAt(g, RowsScaled(m, width, q), width, |q|, i, s)
    {
      var voter, off := VoterAt(g, i, s), g.ColOf(s) % g.blockSize;
      if g.ColOf(s) / g.blockSize < g.perRow && voter < |q| && off < width {
        RowsScaledEntry(m, width, q, voter, off);
      }
    }
  }

  lemma SpreadTimesBaseMask(g: Grid, q: seq<int>, width: nat, i: nat)
    requires g.Valid() && width > 0
    ensures Hadamard(Spread(g, q, width, i), BaseMask(g)) == Base(g, q, i)
  {
    var x, y := Hadamard(Spread(g, q, width, i), BaseMask(g)), Base(g, q, i);
    forall s: nat | s < g.Slots() ensures x[s] == y[s] {
      assert x[s] == SpreadAt(g, q, width, i, s) * BaseMask(g)[s];
    }
  }

  // ------------------------------------------------- sums over voters and slots

  /** A slot of a used block holds its matrix entry, zero for padding voters. */
  lemma PackedIsEntry(g: Grid, m: seq<int>, width: nat, n: nat, i: nat, row: nat, j: nat, c: nat)
    requires g.Valid() && |m| == n * width && width <= g.blockSize && row < 2 && j < g.perRow && c < g.blockSize
    ensures row * g.cols + (j * g.blockSize + c) < g.Slots() && j * g.blockSize + c < g.cols
    ensures Packed(g, m, width, n, i)[row * g.cols + (j * g.blockSize + c)]
         == if c < width then Entry(m, width, i * g.PerCiphertext() + row * g.perRow + j, c) else 0
  {
    VoterPosition(g, i, row, j);
    var voter := i * g.PerCiphertext() + row * g.perRow + j;
    PackedEntry(g, m, width, n, i, LocalOf(g, voter), c);
    assert voter == i * g.PerCiphertext() + LocalOf(g, voter);
    FlatIndex(g.perRow, g.blockSize, j, c);
    if voter >= n { MulMonotone(n, voter, width, width); }
  }

  /** Rotation within a row, when it does not wrap. */
  lemma SourceWithinRow(cols: nat, row: nat, c: nat, k: nat)
    requires row < 2 && c + k < cols
    ensures RotationSource(cols, k, row * cols + c) == row * cols + (c + k)
  {
    SmallMod(c + k, cols);
    assert row * cols == if row == 0 then 0 else cols;
  }

  lemma RotatedEntry(x: seq<int>, cols: nat, row: nat, c: nat, k: nat)
    requires |x| == 2 * cols && row < 2 && c + k < cols
    ensures 0 <= row * cols + c < |x| && 0 <= row * cols + (c + k) < |x|
    ensures RotatedColumns(x, cols, k)[row * cols + c] == x[row * cols + (c + k)]
  {
    SourceWithinRow(cols, row, c, k);
    assert row * cols == if row == 0 then 0 else cols;
    RotatedAt(x, cols, k, row * cols + c);
  }

  lemma BlockRotationStep(g: Grid, m: seq<int>, width: nat, n: nat, i: nat, row: nat, j: nat, c: nat, voter: nat,
      at: nat)
    requires g.Valid() && |m| == n * width && width <= g.blockSize && row < 2 && j < g.perRow && c < width
    requires voter == i * g.PerCiphertext() + row * g.perRow + j && at == row * g.cols + c
    ensures at < g.Slots()
    ensures RotatedColumns(Packed(g, m, width, n, i), g.cols, j * g.blockSize)[at] == Entry(m, width, voter, c)
  {
    var k, x := j * g.blockSize, Packed(g, m, width, n, i);
    PackedIsEntry(g, m, width, n, i, row, j, c);
    assert x[row * g.cols + (c + k)] == Entry(m, width, voter, c);
    RotatedEntry(x, g.cols, row, c, k);
  }

  /** Rotating by whole blocks and adding sums one column over the voters of a row. */
  lemma {:induction false} BlockRotationSum(g: Grid, m: seq<int>, width: nat, n: nat, i: nat, row: nat, c: nat,
      count: nat, first: nat, at: nat)
    requires g.Valid() && |m| == n * width && width <= g.blockSize && row < 2 && c < width && count <= g.perRow
    requires first == i * g.PerCiphertext() + row * g.perRow && at == row * g.cols + c
    ensures at < g.Slots()
    ensures RotationSum(Packed(g, m, width, n, i), g.cols, g.blockSize, count)[at]
         == ColumnSum(m, width, c, first, first + count)
  {
    BlockRotationStep(g, m, width, n, i, row, 0, c, first, at);
    if count > 0 {
      BlockRotationSum(g, m, width, n, i, row, c, count - 1, first, at);
      BlockRotationStep(g, m, width, n, i, row, count - 1, c, first + (count - 1), at);
      RotationSumStep(Packed(g, m, width, n, i), g.cols, g.blockSize, count - 1, at);
    }
  }

  lemma SwapAdds(r: seq<int>, cols: nat, c: nat)
    requires |r| == 2 * cols && c < cols
    ensures Plus(r, SwappedRows(r, cols))[c] == r[c] + r[cols + c] == Plus(r, SwappedRows(r, cols))[cols + c]
  {
  }

  lemma RowSums(g: Grid, m: seq<int>, width: nat, n: nat, i: nat, c: nat, first: nat)
    requires g.Valid() && |m| == n * width && width <= g.blockSize && c < width && first == i * g.PerCiphertext()
    ensures c < g.cols
    ensures var r := RotationSum(Packed(g, m, width, n, i), g.cols, g.blockSize, g.perRow);
      r[c] + r[g.cols + c] == ColumnSum(m, width, c, first, first + g.PerCiphertext())
  {
    PackedIsEntry(g, m, width, n, i, 0, 0, c);
    BlockRotationSum(g, m, width, n, i, 0, c, g.perRow, first, c);
    BlockRotationSum(g, m, width, n, i, 1, c, g.perRow, first + g.perRow, g.cols + c);
    ColumnSumSplit(m, width, c, first, first + g.perRow, first + g.PerCiphertext());
  }

  /** The row swap adds the two rows of a ciphertext, in either row. */
  lemma RowsTotal(g: Grid, m: seq<int>, width: nat, n: nat, i: nat, c: nat)
    requires g.Valid() && |m| == n * width && width <= g.blockSize && c < width
    ensures c < g.cols
    ensures var r := RotationSum(Packed(g, m, width, n, i), g.cols, g.blockSize, g.perRow);
      var total := ColumnSum(m, width, c, i * g.PerCiphertext(), i * g.PerCiphertext() + g.PerCiphertext());
      Plus(r, SwappedRows(r, g.cols))[c] == total == Plus(r, SwappedRows(r, g.cols))[g.cols + c]
  {
    var r := RotationSum(Packed(g, m, width, n, i), g.cols, g.blockSize, g.perRow);
    RowSums(g, m, width, n, i, c, i * g.PerCiphertext());
    SwapAdds(r, g.cols, c);
  }

  lemma SlotRotationStep(g: Grid, m: seq<int>, width: nat, n: nat, i: nat, row: nat, j: nat, l: nat, voter: nat,
      at: nat)
    requires g.Valid() && |m| == n * width && width <= g.blockSize && row < 2 && j < g.perRow && l < width
    requires voter == i * g.PerCiphertext() + row * g.perRow + j && at == row * g.cols + j * g.blockSize
    ensures at < g.Slots()
    ensures RotatedColumns(Packed(g, m, width, n, i), g.cols, l)[at] == Entry(m, width, voter, l)
  {
    var c, x := j * g.blockSize, Packed(g, m, width, n, i);
    PackedIsEntry(g, m, width, n, i, row, j, l);
    assert x[row * g.cols + (c + l)] == Entry(m, width, voter, l);
    RotatedEntry(x, g.cols, row, c, l);
  }

  lemma BaseSlotInRange(g: Grid, row: nat, j: nat, at: nat)
    requires g.Valid() && row < 2 && j < g.perRow && at == row * g.cols + j * g.blockSize
    ensures at < g.Slots()
  {
    FlatIndex(g.perRow, g.blockSize, j, 0);
    assert row * g.cols == if row == 0 then 0 else g.cols;
  }

  lemma UnitRotationStep(v: seq<int>, cols: nat, count: nat, at: nat)
    requires |v| == 2 * cols && at < |v|
    ensures RotationSum(v, cols, 1, count + 1)[at]
         == RotationSum(v, cols, 1, count)[at] + RotatedColumns(v, cols, count)[at]
  {
    assert count * 1 == count;
    RotationSumStep(v, cols, 1, count, at);
  }

  /** Adding the slots of a block sums a matrix row into its base slot. */
  lemma {:induction false} SlotRotationSum(g: Grid, m: seq<int>, width: nat, n: nat, i: nat, row: nat, j: nat,
      count: nat, voter: nat, at: nat)
    requires g.Valid() && |m| == n * width && width <= g.blockSize && row < 2 && j < g.perRow && count <= width
    requires voter == i * g.PerCiphertext() + row * g.perRow + j && at == row * g.cols + j * g.blockSize
    ensures at < g.Slots()
    ensures RotationSum(Packed(g, m, width, n, i), g.cols, 1, count)[at] == RowSum(m, width, voter, count)
  {
    BaseSlotInRange(g, row, j, at);
    if count > 0 {
      SlotRotationSum(g, m, width, n, i, row, j, count - 1, voter, at);
      SlotRotationStep(g, m, width, n, i, row, j, count - 1, voter, at);
      UnitRotationStep(Packed(g, m, width, n, i), g.cols, count - 1, at);
    }
  }

  /** A base slot of a used block: where its voter's row sum is found. */
  lemma BaseSlot(g: Grid, s: nat)
    requires g.Valid() && s < g.Slots() && g.ColOf(s) % g.blockSize == 0
    ensures g.RowOf(s) < 2 && s == g.RowOf(s) * g.cols + (g.ColOf(s) / g.blockSize) * g.blockSize
  {
    assert g.ColOf(s) == (g.ColOf(s) / g.blockSize) * g.blockSize + g.ColOf(s) % g.blockSize;
    assert g.RowOf(s) * g.cols == if g.RowOf(s) == 0 then 0 else g.cols;
  }

  lemma BaseRowSum(g: Grid, m: seq<int>, width: nat, n: nat, i: nat, s: nat)
    requires g.Valid() && |m| == n * width && width <= g.blockSize && s < g.Slots()
    requires g.ColOf(s) / g.blockSize < g.perRow && g.ColOf(s) % g.blockSize == 0
    ensures RotationSum(Packed(g, m, width, n, i), g.cols, 1, width)[s] == RowSum(m, width, VoterAt(g, i, s), width)
  {
    BaseSlot(g, s);
    SlotRotationSum(g, m, width, n, i, g.RowOf(s), g.ColOf(s) / g.blockSize, width, VoterAt(g, i, s), s);
  }

  /** 1 - (row sum), times the base weights: garbage in other slots meets a zero weight. */
  lemma SelfPowerStep(g: Grid, w: seq<int>, q: seq<int>, k: nat, T: nat, i: nat)
    requires g.Valid() && |w| == |q| * k && k <= g.blockSize
    ensures var sums := RotationSum(Packed(g, Selected(w, T), k, |q|, i), g.cols, 1, k);
      Hadamard(Plus(Negated(sums), BaseMask(g)), Base(g, q, i)) == Base(g, SelfPowers(w, q, k, T), i)
  {
    var sums := RotationSum(Packed(g, Selected(w, T), k, |q|, i), g.cols, 1, k);
    var left, right := Hadamard(Plus(Negated(sums), BaseMask(g)), Base(g, q, i)), Base(g, SelfPowers(w, q, k, T), i);
    forall s: nat | s < g.Slots() ensures left[s] == right[s] {
      assert left[s] == (BaseMask(g)[s] - sums[s]) * Base(g, q, i)[s];
      BaseAt(g, q, i, s);
      BaseAt(g, SelfPowers(w, q, k, T), i, s);
      if IsBaseColumn(g, g.ColOf(s)) && VoterAt(g, i, s) < |q| {
        BaseRowSum(g, Selected(w, T), k, |q|, i, s);
      }
    }
  }

  function SelfPowers(w: seq<int>, q: seq<int>, k: nat, T: nat): (r: seq<int>)
    requires |w| == |q| * k
    ensures |r| == |q|
  {
    seq(|q|, v requires 0 <= v < |q| => SelfPower(w, q, k, T, v))
  }

  // ------------------------------------------------------------ delegate support

  /** The structural mask of the first k columns of both rows. */
  function DelegateMask(g: Grid, k: nat): seq<int> {
    seq(g.Slots(), s requires 0 <= s < g.Slots() => if g.ColOf(s) < k then 1 else 0)
  }

  /** A vector whose first columns are known, masked to them. */
  lemma MaskedColumns(g: Grid, v: seq<int>, x: seq<int>)
    requires |v| == g.Slots() && |x| <= g.cols
    requires forall c: nat :: c < |x| ==> v[c] == x[c] && v[g.cols + c] == x[c]
    ensures Hadamard(v, DelegateMask(g, |x|)) == Repeated(g, x)
  {
    forall s: nat | s < g.Slots() ensures Hadamard(v, DelegateMask(g, |x|))[s] == Repeated(g, x)[s] {
      assert s == g.ColOf(s) || s == g.cols + g.ColOf(s);
    }
  }

  /** The one-hot mask of a slot. */
  function Target(n: nat, at: nat): seq<int> {
    seq(n, s requires 0 <= s < n => if s == at then 1 else 0)
  }

  function SpikeVector(n: nat, at: nat, x: int): seq<int> {
    seq(n, s requires 0 <= s < n => if s == at then x else 0)
  }

  /**
   * Rotating the support by l - blockStart brings delegate l to the voter's base slot,
   * whichever row that is; the mask removes everything else.
   */
  lemma SupportReachesVoter(g: Grid, x: seq<int>, local: nat, l: nat)
    requires g.Valid() && local < g.PerCiphertext() && l < |x| <= g.blockSize
    ensures var at := g.BlockStart(local);
      Hadamard(RotatedColumns(Repeated(g, x), g.cols, l - at), Target(g.Slots(), at))
        == SpikeVector(g.Slots(), at, x[l])
  {
    var at := g.BlockStart(local);
    BlockSlot(g, local, 0);
    MulMonotone(1, g.perRow, g.blockSize, g.blockSize);
    var source := RotationSource(g.cols, l - at, at);
    assert g.ColOf(source) == l by {
      if at < g.cols {
        SmallMod(l, g.cols);
      } else {
        assert at - g.cols + (l - at) == l - g.cols;
        DivModUnique(l - g.cols, -1, l, g.cols);
      }
    }
  }

  /** Spread numbers of the voters below `upTo`. */
  function SpreadUpTo(g: Grid, x: seq<int>, width: nat, upTo: nat, i: nat): seq<int>
    requires g.blockSize > 0 && upTo <= |x|
  {
    Spread(g, x[..upTo], width, i)
  }

  /** A voter's number fills the first slots of the voter's block, and nothing else changes. */
  lemma SpreadStep(g: Grid, x: seq<int>, width: nat, voter: nat, s: nat)
    requires g.Valid() && voter < |x| && width <= g.blockSize && s < g.Slots()
    ensures var i, at := CiphertextOf(g, voter), g.BlockStart(LocalOf(g, voter));
      SpreadUpTo(g, x, width, voter + 1, i)[s]
        == if at <= s < at + width then x[voter] else SpreadUpTo(g, x, width, voter, i)[s]
    ensures var i, at := CiphertextOf(g, voter), g.BlockStart(LocalOf(g, voter));
      at <= s < at + width ==> SpreadUpTo(g, x, width, voter, i)[s] == 0
  {
    VoterOfSlot(g, voter, CiphertextOf(g, voter), s);
  }

  /** Adding a voter's spike extends the base vector of the voter's ciphertext. */
  lemma BaseStep(g: Grid, x: seq<int>, voter: nat)
    requires g.Valid() && voter < |x|
    ensures var i := CiphertextOf(g, voter);
      SpreadUpTo(g, x, 1, voter + 1, i)
        == Plus(SpreadUpTo(g, x, 1, voter, i), SpikeVector(g.Slots(), g.BlockStart(LocalOf(g, voter)), x[voter]))
  {
    var i, at := CiphertextOf(g, voter), g.BlockStart(LocalOf(g, voter));
    forall s: nat | s < g.Slots()
      ensures SpreadUpTo(g, x, 1, voter + 1, i)[s] == SpreadUpTo(g, x, 1, voter, i)[s] + if s == at then x[voter] else 0
    {
      SpreadStep(g, x, 1, voter, s);
    }
  }

  /** Voters of other ciphertexts do not show up in ciphertext i. */
  lemma SpreadRange(g: Grid, x: seq<int>, width: nat, i: nat, low: nat, high: nat)
    requires g.Valid() && low <= high <= |x|
    requires forall v: nat :: low <= v < high ==> CiphertextOf(g, v) != i
    ensures SpreadUpTo(g, x, width, low, i) == SpreadUpTo(g, x, width, high, i)
  {
    var before, after := SpreadUpTo(g, x, width, low, i), SpreadUpTo(g, x, width, high, i);
    forall s: nat | s < g.Slots() ensures before[s] == after[s] {
      if g.ColOf(s) / g.blockSize < g.perRow {
        BlockOfSlot(g, i, s);
      }
    }
  }

  /** The number of voters in ciphertext i, as the source computes it. */
  function VotersIn(g: Grid, n: nat, i: nat): int {
    if n - i * g.PerCiphertext() < g.PerCiphertext() then n - i * g.PerCiphertext() else g.PerCiphertext()
  }

  /** Before its own voters ciphertext i is empty, after them it is complete. */
  lemma SpreadEnds(g: Grid, x: seq<int>, width: nat, i: nat)
    requires g.Valid() && i * g.PerCiphertext() < |x|
    ensures 0 < VotersIn(g, |x|, i) <= g.PerCiphertext() && i * g.PerCiphertext() + VotersIn(g, |x|, i) <= |x|
    ensures SpreadUpTo(g, x, width, i * g.PerCiphertext(), i) == Zeros(g.Slots())
    ensures SpreadUpTo(g, x, width, i * g.PerCiphertext() + VotersIn(g, |x|, i), i) == Spread(g, x, width, i)
  {
    var p := g.PerCiphertext();
    var end := i * p + VotersIn(g, |x|, i);
    forall v: nat | v < i * p || v >= i * p + p ensures CiphertextOf(g, v) != i {
      assert v == (v / p) * p + v % p;
    }
    SpreadRange(g, x, width, i, 0, i * p);
    SpreadRange(g, x, width, i, end, |x|);
    assert x[..|x|] == x;
    forall s: nat | s < g.Slots() ensures SpreadUpTo(g, x, width, 0, i)[s] == 0 {
    }
  }

  lemma BaseAdds(g: Grid, x: seq<int>, y: seq<int>, z: seq<int>, i: nat)
    requires g.Valid() && |x| == |y| == |z| && forall v :: 0 <= v < |x| ==> z[v] == x[v] + y[v]
    ensures Plus(Base(g, x, i), Base(g, y, i)) == Base(g, z, i)
  {
    forall s: nat | s < g.Slots() ensures Base(g, x, i)[s] + Base(g, y, i)[s] == Base(g, z, i)[s] {
    }
  }

  // ------------------------------------------------------------ weight expansion

  /** The sum of the rotations by 0, -1, ..., -(m-1). */
  function ExpansionSum(v: seq<int>, cols: nat, m: nat): (r: seq<int>)
    requires |v| == 2 * cols && m > 0
    ensures |r| == |v|
  {
    if m == 1 then v else Plus(ExpansionSum(v, cols, m - 1), RotatedColumns(v, cols, 1 - m))
  }

  /** The column that a shift right by m < blockSize reads, wrapping at the start of the row. */
  function ShiftedColumn(g: Grid, col: nat, m: nat): int {
    if col >= m then col - m else g.cols + col - m
  }

  lemma ShiftSource(g: Grid, m: nat, s: nat)
    requires g.Valid() && m < g.blockSize && s < g.Slots()
    ensures var source := RotationSource(g.cols, 0 - m, s);
      g.ColOf(source) == ShiftedColumn(g, g.ColOf(s), m) && g.RowOf(source) == g.RowOf(s)
  {
    var col := g.ColOf(s);
    MulMonotone(1, g.perRow, g.blockSize, g.blockSize);
    if col >= m {
      SmallMod(col - m, g.cols);
    } else {
      DivModUnique(col - m, -1, g.cols + col - m, g.cols);
    }
  }

  predicate IsBaseColumn(g: Grid, c: nat)
    requires g.blockSize > 0
  {
    c / g.blockSize < g.perRow && c % g.blockSize == 0
  }

  lemma ColumnWithinBlock(g: Grid, j: nat, off: nat, m: nat)
    requires g.Valid() && m <= off < g.blockSize && j < g.perRow
    ensures var c := j * g.blockSize + off - m;
      0 <= c < g.cols && c / g.blockSize == j && (IsBaseColumn(g, c) <==> off == m)
  {
    FlatIndex(g.perRow, g.blockSize, j, off - m);
    DivModUnique(j * g.blockSize + (off - m), j, off - m, g.blockSize);
  }

  lemma ColumnInPreviousBlock(g: Grid, j: nat, off: nat, m: nat)
    requires g.Valid() && off < m < g.blockSize && 0 < j < g.perRow
    ensures var c := j * g.blockSize + off - m; 0 <= c < g.cols && !IsBaseColumn(g, c)
  {
    Distribute(g.blockSize, j - 1, 1);
    ColumnWithinBlock(g, j - 1, g.blockSize + off - m, 0);
  }

  /** The last blockSize - 1 columns hold no base slot. */
  lemma WrappedIsNotBase(g: Grid, c: nat)
    requires g.Valid() && g.cols - g.blockSize < c < g.cols
    ensures !IsBaseColumn(g, c)
  {
    var j := c / g.blockSize;
    assert c == j * g.blockSize + c % g.blockSize;
    if j < g.perRow {
      MulMonotone(j + 1, g.perRow, g.blockSize, g.blockSize);
      Distribute(g.blockSize, j, 1);
    }
  }

  /** A used slot at offset m, and no other used slot, reads a base slot: its own block's. */
  lemma ShiftedColumnIsBase(g: Grid, j: nat, off: nat, m: nat)
    requires g.Valid() && m < g.blockSize && off < g.blockSize && j < g.perRow
    ensures var c := ShiftedColumn(g, j * g.blockSize + off, m);
      && 0 <= c < g.cols
      && (IsBaseColumn(g, c) <==> off == m)
      && (off == m ==> c / g.blockSize == j)
  {
    if off >= m {
      ColumnWithinBlock(g, j, off, m);
    } else if j >= 1 {
      ColumnInPreviousBlock(g, j, off, m);
    } else {
      MulMonotone(1, g.perRow, g.blockSize, g.blockSize);
      WrappedIsNotBase(g, g.cols + off - m);
    }
  }

  /** Shifting base values right by m < blockSize puts them at offset m, without wrapping into a block. */
  lemma ShiftedBase(g: Grid, x: seq<int>, i: nat, m: nat, s: nat)
    requires g.Valid() && m < g.blockSize && s < g.Slots() && g.ColOf(s) / g.blockSize < g.perRow
    ensures RotatedColumns(Base(g, x, i), g.cols, 0 - m)[s]
         == if g.ColOf(s) % g.blockSize == m && VoterAt(g, i, s) < |x| then x[VoterAt(g, i, s)] else 0
  {
    var source := RotationSource(g.cols, 0 - m, s);
    ShiftReadsBase(g, m, s, i);
    BaseAt(g, x, i, source);
    RotatedAt(Base(g, x, i), g.cols, 0 - m, s);
  }

  lemma RotatedAt(v: seq<int>, cols: nat, k: int, s: nat)
    requires |v| == 2 * cols && s < |v|
    ensures RotatedColumns(v, cols, k)[s] == v[RotationSource(cols, k, s)]
  {
  }

  lemma SameBlockSameVoter(g: Grid, i: nat, s: nat, u: nat)
    requires g.blockSize > 0 && g.RowOf(s) == g.RowOf(u) && g.ColOf(s) / g.blockSize == g.ColOf(u) / g.blockSize
    ensures VoterAt(g, i, s) == VoterAt(g, i, u)
  {
  }

  lemma ShiftedFromColumn(g: Grid, col: nat, m: nat)
    requires g.Valid() && m < g.blockSize && col / g.blockSize < g.perRow
    ensures var c := ShiftedColumn(g, col, m);
      && 0 <= c
      && (IsBaseColumn(g, c) <==> col % g.blockSize == m)
      && (col % g.blockSize == m ==> c / g.blockSize == col / g.blockSize)
  {
    assert col == (col / g.blockSize) * g.blockSize + col % g.blockSize;
    ShiftedColumnIsBase(g, col / g.blockSize, col % g.blockSize, m);
  }

  lemma ShiftReadsBase(g: Grid, m: nat, s: nat, i: nat)
    requires g.Valid() && m < g.blockSize && s < g.Slots() && g.ColOf(s) / g.blockSize < g.perRow
    ensures var source := RotationSource(g.cols, 0 - m, s);
      && (IsBaseColumn(g, g.ColOf(source)) <==> g.ColOf(s) % g.blockSize == m)
      && (g.ColOf(s) % g.blockSize == m ==> VoterAt(g, i, source) == VoterAt(g, i, s))
  {
    ShiftSource(g, m, s);
    ShiftedFromColumn(g, g.ColOf(s), m);
    if g.ColOf(s) % g.blockSize == m {
      SameBlockSameVoter(g, i, RotationSource(g.cols, 0 - m, s), s);
    }
  }

  lemma BaseAt(g: Grid, x: seq<int>, i: nat, s: nat)
    requires g.Valid() && s < g.Slots()
    ensures Base(g, x, i)[s] == if IsBaseColumn(g, g.ColOf(s)) && VoterAt(g, i, s) < |x| then x[VoterAt(g, i, s)] else 0
  {
  }

  /** Inside the used blocks the expansion copies the base value to the first m offsets. */
  lemma {:induction false} ExpansionSpreads(g: Grid, x: seq<int>, i: nat, m: nat, s: nat)
    requires g.Valid() && 0 < m <= g.blockSize && s < g.Slots() && g.ColOf(s) / g.blockSize < g.perRow
    ensures ExpansionSum(Base(g, x, i), g.cols, m)[s] == SpreadAt(g, x, m, i, s)
  {
    if m > 1 {
      ExpansionSpreads(g, x, i, m - 1, s);
      ShiftedBase(g, x, i, m - 1, s);
    }
  }

  /** Expanded weights times selected votes: slots outside the used blocks meet a zero vote. */
  lemma VotesWeighted(g: Grid, m: seq<int>, b: nat, weights: seq<int>, i: nat)
    requires g.Valid() && |m| == |weights| * b && 0 < b <= g.blockSize
    ensures Hadamard(ExpansionSum(Base(g, weights, i), g.cols, b), Packed(g, m, b, |weights|, i))
         == Packed(g, RowsScaled(m, b, weights), b, |weights|, i)
  {
    PackedTimesSpread(g, m, b, weights, i);
    var e, p := ExpansionSum(Base(g, weights, i), g.cols, b), Packed(g, m, b, |weights|, i);
    forall s: nat | s < g.Slots() ensures e[s] * p[s] == p[s] * SpreadAt(g, weights, b, i, s) {
      if g.ColOf(s) / g.blockSize < g.perRow {
        ExpansionSpreads(g, weights, i, b, s);
      } else {
        assert p[s] == 0;
      }
    }
  }
}
