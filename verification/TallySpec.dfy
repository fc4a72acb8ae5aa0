/**
 * The tally as mathematics: majority selection, delegation and weighting on exact
 * integers, with the laws the election relies on. Both the plaintext references and
 * the encrypted pipeline are proved against these definitions.
 */
module TallySpec {
  import opened Modular
  import opened Matrices
  import opened Lagrange

  /** Majority selection of every entry. */
  function Selected(m: seq<int>, T: nat): (r: seq<int>)
    ensures |r| == |m|
  {
    seq(|m|, i requires 0 <= i < |m| => Indicator(T, m[i]))
  }

  /** Every entry scaled by the number of its row. */
  function RowsScaled(m: seq<int>, width: nat, factors: seq<int>): (r: seq<int>)
    requires |m| == |factors| * width
    ensures |r| == |m|
  {
    seq(|m|, i requires 0 <= i < |m| => m[i] * factors[RowIndex(m, width, factors, i)])
  }

  function RowIndex(m: seq<int>, width: nat, factors: seq<int>, i: nat): (r: nat)
    requires |m| == |factors| * width && i < |m|
    ensures width > 0 && r == i / width && r < |factors|
  {
    assert width > 0;
    RowBound(|factors|, width, i);
    i / width
  }

  lemma RowBound(n: nat, width: nat, i: nat)
    requires width > 0 && i < n * width
    ensures 0 <= i / width < n
  {
    assert i == (i / width) * width + i % width;
    if i / width >= n { MulMonotone(n, i / width, width, width); assert false; }
  }

  /** Every element of a matrix is the entry at its row and column. */
  lemma EntryOfIndex(m: seq<int>, n: nat, width: nat, i: nat)
    requires |m| == n * width && i < |m|
    ensures width > 0 && i / width < n && i % width < width && m[i] == Entry(m, width, i / width, i % width)
  {
    assert width > 0;
    RowBound(n, width, i);
    assert i == (i / width) * width + i % width;
  }

  lemma RowsScaledEntry(m: seq<int>, width: nat, factors: seq<int>, v: nat, c: nat)
    requires |m| == |factors| * width && v < |factors| && c < width
    ensures Entry(RowsScaled(m, width, factors), width, v, c) == Entry(m, width, v, c) * factors[v]
  {
    FlatIndex(|factors|, width, v, c);
  }

  lemma SelectedEntry(m: seq<int>, T: nat, n: nat, width: nat, v: nat, c: nat)
    requires |m| == n * width && v < n && c < width
    ensures Entry(Selected(m, T), width, v, c) == Indicator(T, Entry(m, width, v, c))
  {
    FlatIndex(n, width, v, c);
  }

  /** Power delegated to delegate l: the sum over the voters who selected l. */
  function Support(w: seq<int>, q: seq<int>, k: nat, T: nat, l: nat): int
    requires |w| == |q| * k
  {
    ColumnSum(RowsScaled(Selected(w, T), k, q), k, l, 0, |q|)
  }

  /** A voter's own power, kept unless a delegate was selected. */
  function SelfPower(w: seq<int>, q: seq<int>, k: nat, T: nat, v: nat): int
    requires |w| == |q| * k && v < |q|
  {
    (1 - RowSum(Selected(w, T), k, v, k)) * q[v]
  }

  /** The first c terms of row v of D times the support vector. */
  function Delegated(D: seq<seq<nat>>, w: seq<int>, q: seq<int>, k: nat, T: nat, v: nat, c: nat): int
    requires |w| == |q| * k && v < |D| && c <= k <= |D[v]|
  {
    if c == 0 then 0 else Delegated(D, w, q, k, T, v, c - 1) + D[v][c - 1] * Support(w, q, k, T, c - 1)
  }

  ghost predicate IsDelegation(D: seq<seq<nat>>, n: nat, k: nat) {
    |D| == n && forall v :: 0 <= v < n ==> |D[v]| == k
  }

  /** D is a 0/1 matrix. */
  ghost predicate Boolean(D: seq<seq<nat>>) {
    forall v, l :: 0 <= v < |D| && 0 <= l < |D[v]| ==> D[v][l] <= 1
  }

  function Weight(D: seq<seq<nat>>, w: seq<int>, q: seq<int>, k: nat, T: nat, v: nat): int
    requires |w| == |q| * k && v < |q| && v < |D| && k <= |D[v]|
  {
    SelfPower(w, q, k, T, v) + Delegated(D, w, q, k, T, v, k)
  }

  function Weights(D: seq<seq<nat>>, w: seq<int>, q: seq<int>, k: nat, T: nat): (r: seq<int>)
    requires |w| == |q| * k && |D| == |q| && forall v :: 0 <= v < |D| ==> |D[v]| == k
    ensures |r| == |q|
  {
    seq(|q|, v requires 0 <= v < |q| => Weight(D, w, q, k, T, v))
  }

  /** The tally of candidate c. */
  function Tally(D: seq<seq<nat>>, w: seq<int>, t: seq<int>, q: seq<int>, b: nat, k: nat, T: nat, c: nat): int
    requires |w| == |q| * k && |t| == |q| * b && |D| == |q| && forall v :: 0 <= v < |D| ==> |D[v]| == k
  {
    ColumnSum(RowsScaled(Selected(t, T), b, Weights(D, w, q, k, T)), b, c, 0, |q|)
  }

  // --------------------------------------------------------- selection is unique

  ghost predicate RowsBounded(m: seq<int>, n: nat, width: nat, T: nat) {
    && |m| == n * width
    && (forall v: nat, c: nat :: v < n && c < width ==> Entry(m, width, v, c) >= 0)
    && forall v: nat :: v < n ==> RowSum(m, width, v, width) <= T
  }

  lemma {:induction false} SelectionsCost(m: seq<int>, n: nat, width: nat, T: nat, v: nat, c: nat)
    requires RowsBounded(m, n, width, T) && v < n && c <= width
    ensures RowSum(Selected(m, T), width, v, c) * (T / 2 + 1) <= RowSum(m, width, v, c)
    ensures RowSum(Selected(m, T), width, v, c) >= 0
  {
    if c > 0 {
      SelectionsCost(m, n, width, T, v, c - 1);
      SelectedEntry(m, T, n, width, v, c - 1);
      Distribute(T / 2 + 1, RowSum(Selected(m, T), width, v, c - 1), Entry(Selected(m, T), width, v, c - 1));
    }
  }

  /** A row that sums to at most T has at most one majority entry. */
  lemma AtMostOneSelected(m: seq<int>, n: nat, width: nat, T: nat, v: nat)
    requires RowsBounded(m, n, width, T) && v < n
    ensures 0 <= RowSum(Selected(m, T), width, v, width) <= 1
  {
    SelectionsCost(m, n, width, T, v, width);
    var s := RowSum(Selected(m, T), width, v, width);
    if s >= 2 { MulMonotone(2, s, T / 2 + 1, T / 2 + 1); assert false; }
  }

  lemma {:induction false} SelectedRowSum(m: seq<int>, n: nat, width: nat, T: nat, v: nat, sel: int, c: nat)
    requires |m| == n * width && v < n && c <= width
    requires forall j: nat :: j < width ==> (Entry(m, width, v, j) > T / 2 <==> j == sel)
    ensures RowSum(Selected(m, T), width, v, c) == if 0 <= sel < c then 1 else 0
  {
    if c > 0 {
      SelectedRowSum(m, n, width, T, v, sel, c - 1);
      SelectedEntry(m, T, n, width, v, c - 1);
    }
  }

  // --------------------------------------------------- conservation of voting power

  function SumOf(q: seq<int>, n: nat): int
    requires n <= |q|
  {
    if n == 0 then 0 else SumOf(q, n - 1) + q[n - 1]
  }

  /** The sum of column l of D over the first n voters. */
  function DelegateCount(D: seq<seq<nat>>, k: nat, l: nat, n: nat): nat
    requires l < k && n <= |D| && forall v :: 0 <= v < |D| ==> |D[v]| == k
  {
    if n == 0 then 0 else DelegateCount(D, k, l, n - 1) + D[n - 1][l]
  }

  /** Every delegate sits on exactly one voter. */
  ghost predicate OneVoterPerDelegate(D: seq<seq<nat>>, n: nat, k: nat) {
    IsDelegation(D, n, k) && forall l: nat :: l < k ==> DelegateCount(D, k, l, n) == 1
  }

  function SupportUpTo(w: seq<int>, q: seq<int>, k: nat, T: nat, c: nat): int
    requires |w| == |q| * k
  {
    if c == 0 then 0 else SupportUpTo(w, q, k, T, c - 1) + Support(w, q, k, T, c - 1)
  }

  function DelegatedUpTo(D: seq<seq<nat>>, w: seq<int>, q: seq<int>, k: nat, T: nat, c: nat, n: nat): int
    requires |w| == |q| * k && c <= k && n <= |D| && forall v :: 0 <= v < |D| ==> |D[v]| == k
  {
    if n == 0 then 0 else DelegatedUpTo(D, w, q, k, T, c, n - 1) + Delegated(D, w, q, k, T, n - 1, c)
  }

  /** Summing D times the support by voters or by delegates is the same. */
  lemma {:induction false} DelegatedByColumn(D: seq<seq<nat>>, w: seq<int>, q: seq<int>, k: nat, T: nat, c: nat, n: nat)
    requires |w| == |q| * k && 0 < c <= k && n <= |D| && forall v :: 0 <= v < |D| ==> |D[v]| == k
    ensures DelegatedUpTo(D, w, q, k, T, c, n)
         == DelegatedUpTo(D, w, q, k, T, c - 1, n) + DelegateCount(D, k, c - 1, n) * Support(w, q, k, T, c - 1)
  {
    if n > 0 {
      DelegatedByColumn(D, w, q, k, T, c, n - 1);
      Distribute(Support(w, q, k, T, c - 1), DelegateCount(D, k, c - 1, n - 1), D[n - 1][c - 1]);
    }
  }

  lemma {:induction false} NothingDelegated(D: seq<seq<nat>>, w: seq<int>, q: seq<int>, k: nat, T: nat, n: nat)
    requires |w| == |q| * k && n <= |D| && forall v :: 0 <= v < |D| ==> |D[v]| == k
    ensures DelegatedUpTo(D, w, q, k, T, 0, n) == 0
  {
    if n > 0 {
      NothingDelegated(D, w, q, k, T, n - 1);
    }
  }

  lemma {:induction false} DelegatedIsSupport(D: seq<seq<nat>>, w: seq<int>, q: seq<int>, n: nat, k: nat, T: nat,
      c: nat)
    requires |w| == |q| * k && c <= k && OneVoterPerDelegate(D, n, k)
    ensures DelegatedUpTo(D, w, q, k, T, c, n) == SupportUpTo(w, q, k, T, c)
  {
    if c == 0 {
      NothingDelegated(D, w, q, k, T, n);
    } else {
      DelegatedIsSupport(D, w, q, n, k, T, c - 1);
      DelegatedByColumn(D, w, q, k, T, c, n);
    }
  }

  /** Every row's sum over its first c columns, scaled by the row's factor, over n rows. */
  function ScaledByRow(m: seq<int>, width: nat, f: seq<int>, c: nat, n: nat): int
    requires |m| == |f| * width && n <= |f|
  {
    if n == 0 then 0 else ScaledByRow(m, width, f, c, n - 1) + RowSum(m, width, n - 1, c) * f[n - 1]
  }

  /** The same sum taken column by column. */
  function ScaledByColumn(m: seq<int>, width: nat, f: seq<int>, c: nat): int
    requires |m| == |f| * width
  {
    if c == 0 then 0
    else ScaledByColumn(m, width, f, c - 1) + ColumnSum(RowsScaled(m, width, f), width, c - 1, 0, |f|)
  }

  lemma {:induction false} ScaledColumnStep(m: seq<int>, width: nat, f: seq<int>, c: nat, n: nat)
    requires |m| == |f| * width && 0 < c <= width && n <= |f|
    ensures ScaledByRow(m, width, f, c, n)
         == ScaledByRow(m, width, f, c - 1, n) + ColumnSum(RowsScaled(m, width, f), width, c - 1, 0, n)
  {
    if n > 0 {
      ScaledColumnStep(m, width, f, c, n - 1);
      RowsScaledEntry(m, width, f, n - 1, c - 1);
      Distribute(f[n - 1], RowSum(m, width, n - 1, c - 1), Entry(m, width, n - 1, c - 1));
    }
  }

  lemma {:induction false} ScaledNothing(m: seq<int>, width: nat, f: seq<int>, n: nat)
    requires |m| == |f| * width && n <= |f|
    ensures ScaledByRow(m, width, f, 0, n) == 0
  {
    if n > 0 {
      ScaledNothing(m, width, f, n - 1);
    }
  }

  lemma {:induction false} ScaledSumsAgree(m: seq<int>, width: nat, f: seq<int>, c: nat)
    requires |m| == |f| * width && c <= width
    ensures ScaledByColumn(m, width, f, c) == ScaledByRow(m, width, f, c, |f|)
  {
    if c == 0 {
      ScaledNothing(m, width, f, |f|);
    } else {
      ScaledSumsAgree(m, width, f, c - 1);
      ScaledColumnStep(m, width, f, c, |f|);
    }
  }

  lemma {:induction false} SupportIsScaled(w: seq<int>, q: seq<int>, k: nat, T: nat, c: nat)
    requires |w| == |q| * k
    ensures SupportUpTo(w, q, k, T, c) == ScaledByColumn(Selected(w, T), k, q, c)
  {
    if c > 0 {
      SupportIsScaled(w, q, k, T, c - 1);
    }
  }

  lemma {:induction false} WeightsSplit(D: seq<seq<nat>>, w: seq<int>, q: seq<int>, k: nat, T: nat, n: nat)
    requires |w| == |q| * k && n <= |q| == |D| && forall v :: 0 <= v < |D| ==> |D[v]| == k
    ensures SumOf(Weights(D, w, q, k, T), n)
         == SumOf(q, n) - ScaledByRow(Selected(w, T), k, q, k, n) + DelegatedUpTo(D, w, q, k, T, k, n)
  {
    if n > 0 {
      WeightsSplit(D, w, q, k, T, n - 1);
      WeightSplit(D, w, q, k, T, n - 1);
    }
  }

  lemma WeightSplit(D: seq<seq<nat>>, w: seq<int>, q: seq<int>, k: nat, T: nat, v: nat)
    requires |w| == |q| * k && v < |q| == |D| && forall v :: 0 <= v < |D| ==> |D[v]| == k
    ensures Weights(D, w, q, k, T)[v]
         == q[v] - RowSum(Selected(w, T), k, v, k) * q[v] + Delegated(D, w, q, k, T, v, k)
  {
    var r := RowSum(Selected(w, T), k, v, k);
    assert (1 - r) * q[v] == q[v] - r * q[v];
  }

  /** Delegation moves voting power without creating or losing any. */
  lemma PowerConserved(D: seq<seq<nat>>, w: seq<int>, q: seq<int>, k: nat, T: nat)
    requires |w| == |q| * k && OneVoterPerDelegate(D, |q|, k)
    ensures SumOf(Weights(D, w, q, k, T), |q|) == SumOf(q, |q|)
  {
    WeightsSplit(D, w, q, k, T, |q|);
    DelegatedIsSupport(D, w, q, |q|, k, T, k);
    SupportIsScaled(w, q, k, T, k);
    ScaledSumsAgree(Selected(w, T), k, q, k);
  }

  ghost predicate NonNegative(q: seq<int>) {
    forall v :: 0 <= v < |q| ==> q[v] >= 0
  }

  lemma {:induction false} ColumnNonNegative(m: seq<int>, width: nat, f: seq<int>, col: nat, n: nat)
    requires |m| == |f| * width && col < width && n <= |f| && NonNegative(f)
    requires forall v: nat, c: nat :: v < |f| && c < width ==> Entry(m, width, v, c) >= 0
    ensures ColumnSum(RowsScaled(m, width, f), width, col, 0, n) >= 0
  {
    if n > 0 {
      ColumnNonNegative(m, width, f, col, n - 1);
      RowsScaledEntry(m, width, f, n - 1, col);
      MulMonotone(0, Entry(m, width, n - 1, col), 0, f[n - 1]);
    }
  }

  lemma SelectedNonNegative(m: seq<int>, T: nat, n: nat, width: nat)
    requires |m| == n * width
    ensures forall v: nat, c: nat :: v < n && c < width ==> Entry(Selected(m, T), width, v, c) >= 0
  {
    forall v: nat, c: nat | v < n && c < width ensures Entry(Selected(m, T), width, v, c) >= 0 {
      SelectedEntry(m, T, n, width, v, c);
    }
  }

  lemma {:induction false} DelegatedNonNegative(D: seq<seq<nat>>, w: seq<int>, q: seq<int>, k: nat, T: nat, v: nat,
      c: nat)
    requires |w| == |q| * k && v < |D| && c <= k <= |D[v]| && NonNegative(q)
    ensures Delegated(D, w, q, k, T, v, c) >= 0
  {
    if c > 0 {
      DelegatedNonNegative(D, w, q, k, T, v, c - 1);
      SelectedNonNegative(w, T, |q|, k);
      ColumnNonNegative(Selected(w, T), k, q, c - 1, |q|);
      MulMonotone(0, D[v][c - 1], 0, Support(w, q, k, T, c - 1));
    }
  }

  lemma WeightsNonNegative(D: seq<seq<nat>>, w: seq<int>, q: seq<int>, k: nat, T: nat)
    requires |D| == |q| && RowsBounded(w, |q|, k, T) && NonNegative(q)
    requires forall v :: 0 <= v < |D| ==> |D[v]| == k
    ensures NonNegative(Weights(D, w, q, k, T))
  {
    forall v | 0 <= v < |q| ensures Weight(D, w, q, k, T, v) >= 0 {
      AtMostOneSelected(w, |q|, k, T, v);
      DelegatedNonNegative(D, w, q, k, T, v, k);
      MulMonotone(0, 1 - RowSum(Selected(w, T), k, v, k), 0, q[v]);
    }
  }

  /** Votes counted by candidate: each voter's weight at most once. */
  lemma {:induction false} VotesBounded(t: seq<int>, b: nat, T: nat, f: seq<int>, n: nat)
    requires RowsBounded(t, |f|, b, T) && NonNegative(f) && n <= |f|
    ensures ScaledByRow(Selected(t, T), b, f, b, n) <= SumOf(f, n)
    ensures ScaledByRow(Selected(t, T), b, f, b, n) == SumOf(f, n)
      <==> forall v: nat :: v < n && f[v] > 0 ==> RowSum(Selected(t, T), b, v, b) == 1
  {
    if n > 0 {
      VotesBounded(t, b, T, f, n - 1);
      AtMostOneSelected(t, |f|, b, T, n - 1);
      var chosen := RowSum(Selected(t, T), b, n - 1, b);
      assert chosen * f[n - 1] == if chosen == 1 then f[n - 1] else 0;
    }
  }

  lemma {:induction false} ColumnWithinTotal(m: seq<int>, width: nat, f: seq<int>, c: nat, d: nat)
    requires |m| == |f| * width && c < d <= width && NonNegative(f)
    requires forall v: nat, j: nat :: v < |f| && j < width ==> Entry(m, width, v, j) >= 0
    ensures 0 <= ColumnSum(RowsScaled(m, width, f), width, c, 0, |f|) <= ScaledByColumn(m, width, f, d)
  {
    ColumnNonNegative(m, width, f, c, |f|);
    ColumnNonNegative(m, width, f, d - 1, |f|);
    if c < d - 1 {
      ColumnWithinTotal(m, width, f, c, d - 1);
    } else {
      ColumnsNonNegative(m, width, f, c);
    }
  }

  lemma {:induction false} ColumnsNonNegative(m: seq<int>, width: nat, f: seq<int>, c: nat)
    requires |m| == |f| * width && c <= width && NonNegative(f)
    requires forall v: nat, j: nat :: v < |f| && j < width ==> Entry(m, width, v, j) >= 0
    ensures ScaledByColumn(m, width, f, c) >= 0
  {
    if c > 0 {
      ColumnsNonNegative(m, width, f, c - 1);
      ColumnNonNegative(m, width, f, c - 1, |f|);
    }
  }

  /** The sum of the tally over all candidates. */
  function TallyTotal(D: seq<seq<nat>>, w: seq<int>, t: seq<int>, q: seq<int>, b: nat, k: nat, T: nat): int
    requires |w| == |q| * k && |t| == |q| * b && |D| == |q| && forall v :: 0 <= v < |D| ==> |D[v]| == k
  {
    ScaledByColumn(Selected(t, T), b, Weights(D, w, q, k, T), b)
  }

  /**
   * No tally entry exceeds the total voting power, so a plaintext modulus above that
   * power leaves every entry exact; and the tally hands out exactly the total power
   * if and only if every voter that carries weight has a majority candidate.
   */
  lemma TallyConserved(D: seq<seq<nat>>, w: seq<int>, t: seq<int>, q: seq<int>, n: nat, b: nat, k: nat, T: nat)
    requires |q| == n && NonNegative(q) && OneVoterPerDelegate(D, n, k)
    requires RowsBounded(w, n, k, T) && RowsBounded(t, n, b, T)
    ensures forall c: nat :: c < b ==> 0 <= Tally(D, w, t, q, b, k, T, c) <= SumOf(q, n)
    ensures TallyTotal(D, w, t, q, b, k, T) <= SumOf(q, n)
    ensures TallyTotal(D, w, t, q, b, k, T) == SumOf(q, n)
      <==> forall v: nat :: v < n && Weights(D, w, q, k, T)[v] > 0 ==> RowSum(Selected(t, T), b, v, b) == 1
  {
    var f := Weights(D, w, q, k, T);
    WeightsNonNegative(D, w, q, k, T);
    PowerConserved(D, w, q, k, T);
    VotesBounded(t, b, T, f, n);
    ScaledSumsAgree(Selected(t, T), b, f, b);
    SelectedNonNegative(t, T, n, b);
    forall c: nat | c < b ensures 0 <= Tally(D, w, t, q, b, k, T, c) <= SumOf(q, n) {
      ColumnWithinTotal(Selected(t, T), b, f, c, b);
    }
  }

  lemma {:induction false} TermWithinSum(f: seq<int>, n: nat, v: nat)
    requires v < n <= |f| && NonNegative(f)
    ensures 0 <= f[v] <= SumOf(f, n)
  {
    if v < n - 1 {
      TermWithinSum(f, n - 1, v);
    } else {
      SumNonNegative(f, n - 1);
    }
  }

  lemma {:induction false} SumNonNegative(f: seq<int>, n: nat)
    requires n <= |f| && NonNegative(f)
    ensures SumOf(f, n) >= 0
  {
    if n > 0 {
      SumNonNegative(f, n - 1);
    }
  }

  /** No delegate's support exceeds the total power. */
  lemma SupportWithinPower(w: seq<int>, q: seq<int>, k: nat, T: nat, l: nat)
    requires RowsBounded(w, |q|, k, T) && NonNegative(q) && l < k
    ensures 0 <= Support(w, q, k, T, l) <= SumOf(q, |q|)
  {
    SelectedNonNegative(w, T, |q|, k);
    ColumnWithinTotal(Selected(w, T), k, q, l, k);
    ScaledSumsAgree(Selected(w, T), k, q, k);
    VotesBounded(w, k, T, q, |q|);
  }

  /** No voter's kept power exceeds the total power. */
  lemma SelfPowerWithinPower(w: seq<int>, q: seq<int>, k: nat, T: nat, v: nat)
    requires RowsBounded(w, |q|, k, T) && NonNegative(q) && v < |q|
    ensures 0 <= SelfPower(w, q, k, T, v) <= q[v] <= SumOf(q, |q|)
  {
    AtMostOneSelected(w, |q|, k, T, v);
    TermWithinSum(q, |q|, v);
    var chosen := RowSum(Selected(w, T), k, v, k);
    assert (1 - chosen) * q[v] == if chosen == 0 then q[v] else 0;
  }

  /** A 0/1 row of D receives each support at most once. */
  lemma {:induction false} DelegatedWithinSupports(D: seq<seq<nat>>, w: seq<int>, q: seq<int>, k: nat, T: nat, v: nat,
      c: nat)
    requires |w| == |q| * k && v < |D| && c <= k <= |D[v]| && NonNegative(q) && Boolean(D)
    ensures 0 <= Delegated(D, w, q, k, T, v, c) <= SupportUpTo(w, q, k, T, c)
  {
    if c > 0 {
      DelegatedWithinSupports(D, w, q, k, T, v, c - 1);
      SelectedNonNegative(w, T, |q|, k);
      ColumnNonNegative(Selected(w, T), k, q, c - 1, |q|);
      assert D[v][c - 1] == 0 || D[v][c - 1] == 1;
    }
  }

  /** Every voter's power is either kept or moved: a kept power and all the moved ones fit into the total. */
  lemma {:induction false} KeptAndMoved(w: seq<int>, q: seq<int>, k: nat, T: nat, v: nat, n: nat)
    requires RowsBounded(w, |q|, k, T) && NonNegative(q) && v < |q| && n <= |q|
    ensures ScaledByRow(Selected(w, T), k, q, k, n) + (if v < n then SelfPower(w, q, k, T, v) else 0) <= SumOf(q, n)
  {
    if n > 0 {
      KeptAndMoved(w, q, k, T, v, n - 1);
      AtMostOneSelected(w, |q|, k, T, n - 1);
      var chosen := RowSum(Selected(w, T), k, n - 1, k);
      assert chosen * q[n - 1] == if chosen == 1 then q[n - 1] else 0;
      assert (1 - chosen) * q[n - 1] == if chosen == 0 then q[n - 1] else 0;
    }
  }

  /** No voter's delegated or total weight exceeds the total power, for any 0/1 matrix. */
  lemma WeightWithinPower(D: seq<seq<nat>>, w: seq<int>, q: seq<int>, k: nat, T: nat, v: nat)
    requires RowsBounded(w, |q|, k, T) && NonNegative(q) && IsDelegation(D, |q|, k) && Boolean(D) && v < |q|
    ensures 0 <= Delegated(D, w, q, k, T, v, k) <= Weight(D, w, q, k, T, v) <= SumOf(q, |q|)
  {
    SelfPowerWithinPower(w, q, k, T, v);
    DelegatedWithinSupports(D, w, q, k, T, v, k);
    SupportIsScaled(w, q, k, T, k);
    ScaledSumsAgree(Selected(w, T), k, q, k);
    KeptAndMoved(w, q, k, T, v, |q|);
  }
}
