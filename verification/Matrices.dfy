/**
 * Row-major matrices as the source keeps them: one flat slice and a row width.
 */
module Matrices {
  import opened Modular

  /** Entry (row, col); total, so that padding rows read as zero. */
  function Entry(m: seq<int>, width: nat, row: nat, col: nat): int {
    if row * width + col < |m| then m[row * width + col] else 0
  }

  lemma FlatIndex(n: nat, width: nat, row: nat, col: nat)
    requires row < n && col < width
    ensures 0 <= row * width + col < n * width
    ensures (row * width + col) / width == row && (row * width + col) % width == col
  {
    MulMonotone(row + 1, n, width, width);
    DivModUnique(row * width + col, row, col, width);
  }

  lemma FlatInjective(width: nat, row: nat, col: nat, r: nat, c: nat)
    requires col < width && c < width && row * width + col == r * width + c
    ensures row == r && col == c
  {
    DivModUnique(row * width + col, row, col, width);
    DivModUnique(r * width + c, r, c, width);
  }

  lemma EntryUpdate(m: seq<int>, updated: seq<int>, width: nat, row: nat, col: nat, x: int)
    requires col < width && row * width + col < |m|
    requires updated == m[row * width + col := x]
    ensures forall r: nat, c: nat :: c < width ==>
      Entry(updated, width, r, c) == if r == row && c == col then x else Entry(m, width, r, c)
  {
    forall r: nat, c: nat | c < width
      ensures Entry(updated, width, r, c) == if r == row && c == col then x else Entry(m, width, r, c)
    {
      if r * width + c == row * width + col {
        FlatInjective(width, row, col, r, c);
      }
    }
  }

  method NewMatrix(n: nat, width: nat) returns (out: array<int>)
    ensures fresh(out) && out.Length == n * width
    ensures forall r: nat, c: nat :: Entry(out[..], width, r, c) == 0
  {
    out := new int[n * width](_ => 0);
    forall r: nat, c: nat ensures Entry(out[..], width, r, c) == 0 {
    }
  }

  method AddToEntry(out: array<int>, n: nat, width: nat, row: nat, col: nat, x: int)
    requires out.Length == n * width && row < n && col < width
    modifies out
    ensures forall r: nat, c: nat :: c < width ==>
      Entry(out[..], width, r, c) == Entry(old(out[..]), width, r, c) + if r == row && c == col then x else 0
  {
    FlatIndex(n, width, row, col);
    var slot := row * width + col;
    out[slot] := out[slot] + x;
    EntryUpdate(old(out[..]), out[..], width, row, col, out[slot]);
  }

  method SetEntry(out: array<int>, n: nat, width: nat, row: nat, col: nat, x: int)
    requires out.Length == n * width && row < n && col < width
    modifies out
    ensures forall r: nat, c: nat :: c < width ==>
      Entry(out[..], width, r, c) == if r == row && c == col then x else Entry(old(out[..]), width, r, c)
  {
    FlatIndex(n, width, row, col);
    out[row * width + col] := x;
    EntryUpdate(old(out[..]), out[..], width, row, col, x);
  }

  /** Two matrices of the same size agree when all their entries do. */
  lemma EntriesDetermine(x: seq<int>, y: seq<int>, n: nat, width: nat)
    requires |x| == |y| == n * width
    requires forall r: nat, c: nat :: r < n && c < width ==> Entry(x, width, r, c) == Entry(y, width, r, c)
    ensures x == y
  {
    forall k | 0 <= k < |x| ensures x[k] == y[k] {
      assert width > 0;
      var r, c := k / width, k % width;
      assert k == r * width + c;
      if r >= n { MulMonotone(n, r, width, width); assert false; }
      assert Entry(x, width, r, c) == Entry(y, width, r, c);
    }
  }

  /** The sum of the first c entries of a row. */
  function RowSum(m: seq<int>, width: nat, row: nat, c: nat): int {
    if c == 0 then 0 else RowSum(m, width, row, c - 1) + Entry(m, width, row, c - 1)
  }

  /** The sum of column col over the rows lo..hi-1. */
  function ColumnSum(m: seq<int>, width: nat, col: nat, lo: nat, hi: nat): int
    requires lo <= hi
    decreases hi - lo
  {
    if lo == hi then 0 else ColumnSum(m, width, col, lo, hi - 1) + Entry(m, width, hi - 1, col)
  }

  lemma {:induction false} ColumnSumSplit(m: seq<int>, width: nat, col: nat, lo: nat, mid: nat, hi: nat)
    requires lo <= mid <= hi
    ensures ColumnSum(m, width, col, lo, hi) == ColumnSum(m, width, col, lo, mid) + ColumnSum(m, width, col, mid, hi)
    decreases hi
  {
    if mid < hi {
      ColumnSumSplit(m, width, col, lo, mid, hi - 1);
    }
  }

  lemma {:induction false} ColumnSumBeyond(m: seq<int>, width: nat, col: nat, n: nat, lo: nat, hi: nat)
    requires n <= lo <= hi && |m| == n * width
    ensures ColumnSum(m, width, col, lo, hi) == 0
    decreases hi
  {
    if lo < hi {
      ColumnSumBeyond(m, width, col, n, lo, hi - 1);
      MulMonotone(n, hi - 1, width, width);
    }
  }

  lemma {:induction false} RowSumZero(m: seq<int>, width: nat, row: nat, c: nat)
    requires forall k: nat :: k < c ==> Entry(m, width, row, k) >= 0
    ensures RowSum(m, width, row, c) >= 0
    ensures RowSum(m, width, row, c) == 0 <==> forall k: nat :: k < c ==> Entry(m, width, row, k) == 0
    ensures forall k: nat :: k < c ==> Entry(m, width, row, k) <= RowSum(m, width, row, c)
  {
    if c > 0 {
      RowSumZero(m, width, row, c - 1);
    }
  }

  /** Rows with the same entries have the same sums. */
  lemma {:induction false} RowSumSame(x: seq<int>, rowX: nat, y: seq<int>, rowY: nat, width: nat, c: nat)
    requires forall k: nat :: k < c ==> Entry(x, width, rowX, k) == Entry(y, width, rowY, k)
    ensures RowSum(x, width, rowX, c) == RowSum(y, width, rowY, c)
  {
    if c > 0 {
      RowSumSame(x, rowX, y, rowY, width, c - 1);
    }
  }

  lemma {:induction false} RowSumShift(x: seq<int>, y: seq<int>, width: nat, row: nat, c: nat, col: nat, d: int)
    requires forall k: nat :: k < c ==> Entry(y, width, row, k) == Entry(x, width, row, k) + if k == col then d else 0
    ensures RowSum(y, width, row, c) == RowSum(x, width, row, c) + if col < c then d else 0
  {
    if c > 0 {
      RowSumShift(x, y, width, row, c - 1, col, d);
    }
  }
}
