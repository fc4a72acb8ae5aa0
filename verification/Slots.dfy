/**
 * Slot vectors and the slot-wise meaning of the evaluator operations. A ciphertext
 * holds residues modulo t; the operations are stated on integer vectors, and the
 * Residues lemmas show that reducing first makes no difference.
 */
module Slots {
  import opened Modular
  import opened Lagrange

  function Residues(v: seq<int>, t: nat): (r: seq<int>)
    requires t > 0
    ensures |r| == |v|
  {
    seq(|v|, i requires 0 <= i < |v| => v[i] % t)
  }

  function Zeros(n: nat): seq<int> {
    seq(n, _ => 0)
  }

  function Hadamard(u: seq<int>, v: seq<int>): (r: seq<int>)
    requires |u| == |v|
    ensures |r| == |u|
  {
    seq(|u|, i requires 0 <= i < |u| => u[i] * v[i])
  }

  function Plus(u: seq<int>, v: seq<int>): (r: seq<int>)
    requires |u| == |v|
    ensures |r| == |u|
  {
    seq(|u|, i requires 0 <= i < |u| => u[i] + v[i])
  }

  function Negated(u: seq<int>): (r: seq<int>)
    ensures |r| == |u|
  {
    seq(|u|, i requires 0 <= i < |u| => -u[i])
  }

  /** The slot that a rotation of the columns by k to the left moves into slot s. */
  function RotationSource(cols: nat, k: int, s: nat): (r: nat)
    requires s < 2 * cols
    ensures r < 2 * cols && (r < cols <==> s < cols)
  {
    if s < cols then (s + k) % cols else cols + (s - cols + k) % cols
  }

  function RotatedColumns(v: seq<int>, cols: nat, k: int): (r: seq<int>)
    requires |v| == 2 * cols
    ensures |r| == |v|
  {
    seq(|v|, s requires 0 <= s < |v| => v[RotationSource(cols, k, s)])
  }

  function SwappedRows(v: seq<int>, cols: nat): (r: seq<int>)
    requires |v| == 2 * cols
    ensures |r| == |v|
  {
    seq(|v|, s requires 0 <= s < |v| => if s < cols then v[s + cols] else v[s - cols])
  }

  /** RotateAndAdd: the sum of the column rotations by 0, stride, ..., (m-1)*stride. */
  function RotationSum(v: seq<int>, cols: nat, stride: int, m: nat): (r: seq<int>)
    requires |v| == 2 * cols
    ensures |r| == |v|
  {
    if m == 0 then Zeros(|v|)
    else Plus(RotationSum(v, cols, stride, m - 1), RotatedColumns(v, cols, (m - 1) * stride))
  }

  lemma RotationSumStep(v: seq<int>, cols: nat, stride: int, m: nat, s: nat)
    requires |v| == 2 * cols && s < |v|
    ensures RotationSum(v, cols, stride, m + 1)[s]
         == RotationSum(v, cols, stride, m)[s] + RotatedColumns(v, cols, m * stride)[s]
  {
  }

  function PolyValues(c: seq<int>, v: seq<int>): (r: seq<int>)
    ensures |r| == |v|
  {
    seq(|v|, i requires 0 <= i < |v| => Eval(c, v[i]))
  }

  // ------------------------------------------------------- reduction modulo t

  lemma ResiduesIdempotent(u: seq<int>, t: nat)
    requires t > 0
    ensures Residues(Residues(u, t), t) == Residues(u, t)
  {
    forall i | 0 <= i < |u| ensures (u[i] % t) % t == u[i] % t {
      CongMod(u[i], t);
    }
  }

  lemma ResiduesHadamard(u: seq<int>, v: seq<int>, t: nat)
    requires t > 0 && |u| == |v|
    ensures Residues(Hadamard(Residues(u, t), Residues(v, t)), t) == Residues(Hadamard(u, v), t)
    ensures Residues(Hadamard(Residues(u, t), v), t) == Residues(Hadamard(u, v), t)
  {
    forall i | 0 <= i < |u|
      ensures ((u[i] % t) * (v[i] % t)) % t == (u[i] * v[i]) % t
      ensures ((u[i] % t) * v[i]) % t == (u[i] * v[i]) % t
    {
      ModMulMod(u[i], v[i], t);
    }
  }

  lemma ResiduesPlus(u: seq<int>, v: seq<int>, t: nat)
    requires t > 0 && |u| == |v|
    ensures Residues(Plus(Residues(u, t), Residues(v, t)), t) == Residues(Plus(u, v), t)
    ensures Residues(Plus(Residues(u, t), v), t) == Residues(Plus(u, v), t)
  {
    forall i | 0 <= i < |u|
      ensures (u[i] % t + v[i] % t) % t == (u[i] + v[i]) % t
      ensures (u[i] % t + v[i]) % t == (u[i] + v[i]) % t
    {
      ModAddMod(u[i], v[i], t);
    }
  }

  lemma ResiduesNegated(u: seq<int>, t: nat)
    requires t > 0
    ensures Residues(Negated(Residues(u, t)), t) == Residues(Negated(u), t)
  {
    forall i | 0 <= i < |u| ensures (-(u[i] % t)) % t == (-u[i]) % t {
      CongMod(u[i], t);
      CongSub(0, 0, u[i] % t, u[i], t);
    }
  }

  lemma ResiduesRotated(u: seq<int>, cols: nat, k: int, t: nat)
    requires t > 0 && |u| == 2 * cols
    ensures RotatedColumns(Residues(u, t), cols, k) == Residues(RotatedColumns(u, cols, k), t)
    ensures SwappedRows(Residues(u, t), cols) == Residues(SwappedRows(u, cols), t)
  {
  }

  lemma {:induction false} ResiduesRotationSum(u: seq<int>, cols: nat, stride: int, m: nat, t: nat)
    requires t > 0 && |u| == 2 * cols
    ensures Residues(RotationSum(Residues(u, t), cols, stride, m), t) == Residues(RotationSum(u, cols, stride, m), t)
  {
    if m > 0 {
      ResiduesRotationSum(u, cols, stride, m - 1, t);
      ResiduesRotated(u, cols, (m - 1) * stride, t);
      var x, y := RotationSum(u, cols, stride, m - 1), RotatedColumns(u, cols, (m - 1) * stride);
      var x' := RotationSum(Residues(u, t), cols, stride, m - 1);
      ResiduesPlus(x, y, t);
      ResiduesPlus(x', y, t);
      ResiduesIdempotent(y, t);
      ResiduesPlus(x', Residues(y, t), t);
    }
  }

  lemma ResiduesPoly(c: seq<int>, u: seq<int>, t: nat)
    requires t > 0
    ensures Residues(PolyValues(c, Residues(u, t)), t) == Residues(PolyValues(c, u), t)
  {
    forall i | 0 <= i < |u| ensures Eval(c, u[i] % t) % t == Eval(c, u[i]) % t {
      CongMod(u[i], t);
      EvalCongArgument(c, u[i] % t, u[i], t);
    }
  }

  lemma PlusSwap(a: seq<int>, b: seq<int>, c: seq<int>, d: seq<int>)
    requires |a| == |b| == |c| == |d|
    ensures Plus(Plus(a, b), Plus(c, d)) == Plus(Plus(a, c), Plus(b, d))
  {
  }

  lemma RotatedPlus(u: seq<int>, v: seq<int>, cols: nat, k: int)
    requires |u| == |v| == 2 * cols
    ensures RotatedColumns(Plus(u, v), cols, k) == Plus(RotatedColumns(u, cols, k), RotatedColumns(v, cols, k))
  {
  }

  /** Rotations are linear, so partial sums may be rotated together. */
  lemma {:induction false} RotationSumPlus(u: seq<int>, v: seq<int>, cols: nat, stride: int, m: nat)
    requires |u| == |v| == 2 * cols
    ensures RotationSum(Plus(u, v), cols, stride, m)
      == Plus(RotationSum(u, cols, stride, m), RotationSum(v, cols, stride, m))
  {
    if m == 0 {
      assert Plus(Zeros(|u|), Zeros(|u|)) == Zeros(|u|);
    } else {
      var k := (m - 1) * stride;
      RotationSumPlus(u, v, cols, stride, m - 1);
      RotatedPlus(u, v, cols, k);
      PlusSwap(RotationSum(u, cols, stride, m - 1), RotationSum(v, cols, stride, m - 1),
               RotatedColumns(u, cols, k), RotatedColumns(v, cols, k));
    }
  }
}
