/**
 * Ciphertexts as mutable objects that hold slots modulo the plaintext modulus, and
 * the evaluator calls of the tally with their slot-wise contracts. Encryption noise,
 * levels and keys are not part of this model.
 */
module Bgv {
  import opened Packing
  import opened Slots

  function Max(x: int, y: int): int {
    if x >= y then x else y
  }

  class Ciphertext {
    var slots: seq<int>
    /** Ciphertext multiplications on the longest path since encryption or refresh. */
    var depth: nat

    constructor (slots: seq<int>, depth: nat)
      ensures this.slots == slots && this.depth == depth
    {
      this.slots, this.depth := slots, depth;
    }
  }

  /** The evaluator of one parameter set: plaintext modulus t, two rows of cols slots. */
  datatype Evaluator = Evaluator(t: nat, cols: nat) {
    ghost predicate Valid() {
      t > 1 && cols > 0
    }

    /** The ciphertext holds the residues of the integer vector v. */
    ghost predicate Holds(ct: Ciphertext, v: seq<int>)
      requires Valid()
      reads ct
    {
      |v| == 2 * cols && ct.slots == Residues(v, t)
    }

    /** A ciphertext of this parameter set. */
    ghost predicate Sized(ct: Ciphertext)
      requires Valid()
      reads ct
    {
      Holds(ct, ct.slots)
    }

    method EncryptNew(values: seq<int>) returns (out: Ciphertext)
      requires Valid() && |values| == 2 * cols
      ensures fresh(out) && Holds(out, values) && out.depth == 0
    {
      out := new Ciphertext(Residues(values, t), 0);
    }

    /** A new ciphertext without content decrypts to zero. */
    method NewCiphertext() returns (out: Ciphertext)
      requires Valid()
      ensures fresh(out) && Holds(out, Zeros(2 * cols)) && out.depth == 0
    {
      out := EncryptNew(Zeros(2 * cols));
    }

    method CopyNew(ct: Ciphertext) returns (out: Ciphertext)
      ensures fresh(out) && out.slots == ct.slots && out.depth == ct.depth
    {
      out := new Ciphertext(ct.slots, ct.depth);
    }

    /** Collective refresh and re-encryption do not change the values. */
    method Refresh(ct: Ciphertext) returns (out: Ciphertext)
      ensures fresh(out) && out.slots == ct.slots && out.depth == 0
    {
      out := new Ciphertext(ct.slots, 0);
    }

    method MulRelinNew(x: Ciphertext, y: Ciphertext, ghost u: seq<int>, ghost v: seq<int>) returns (out: Ciphertext)
      requires Valid() && Holds(x, u) && Holds(y, v)
      ensures fresh(out) && Holds(out, Hadamard(u, v)) && out.depth == Max(x.depth, y.depth) + 1
    {
      ResiduesHadamard(u, v, t);
      out := new Ciphertext(Residues(Hadamard(x.slots, y.slots), t), Max(x.depth, y.depth) + 1);
    }

    /** MulNew with a plaintext vector. */
    method MulPlainNew(x: Ciphertext, values: seq<int>, ghost u: seq<int>) returns (out: Ciphertext)
      requires Valid() && Holds(x, u) && |values| == 2 * cols
      ensures fresh(out) && Holds(out, Hadamard(u, values)) && out.depth == x.depth
    {
      ResiduesHadamard(u, values, t);
      out := new Ciphertext(Residues(Hadamard(x.slots, values), t), x.depth);
    }

    /** MulNew with the scalar -1. */
    method NegateNew(x: Ciphertext, ghost u: seq<int>) returns (out: Ciphertext)
      requires Valid() && Holds(x, u)
      ensures fresh(out) && Holds(out, Negated(u)) && out.depth == x.depth
    {
      ResiduesNegated(u, t);
      out := new Ciphertext(Residues(Negated(x.slots), t), x.depth);
    }

    method AddNew(x: Ciphertext, y: Ciphertext, ghost u: seq<int>, ghost v: seq<int>) returns (out: Ciphertext)
      requires Valid() && Holds(x, u) && Holds(y, v)
      ensures fresh(out) && Holds(out, Plus(u, v)) && out.depth == Max(x.depth, y.depth)
    {
      ResiduesPlus(u, v, t);
      out := new Ciphertext(Residues(Plus(x.slots, y.slots), t), Max(x.depth, y.depth));
    }

    /** AddNew with a plaintext vector. */
    method AddPlainNew(x: Ciphertext, values: seq<int>, ghost u: seq<int>) returns (out: Ciphertext)
      requires Valid() && Holds(x, u) && |values| == 2 * cols
      ensures fresh(out) && Holds(out, Plus(u, values)) && out.depth == x.depth
    {
      ResiduesPlus(u, values, t);
      out := new Ciphertext(Residues(Plus(x.slots, values), t), x.depth);
    }

    /** Add(x, y, x): the only call that changes a ciphertext in place. */
    method AddInPlace(x: Ciphertext, y: Ciphertext, ghost u: seq<int>, ghost v: seq<int>)
      requires Valid() && Holds(x, u) && Holds(y, v)
      modifies x
      ensures Holds(x, Plus(u, v)) && x.depth == Max(old(x.depth), old(y.depth))
    {
      ResiduesPlus(u, v, t);
      x.slots, x.depth := Residues(Plus(x.slots, y.slots), t), Max(x.depth, y.depth);
    }

    method RotateColumnsNew(x: Ciphertext, k: int, ghost u: seq<int>) returns (out: Ciphertext)
      requires Valid() && Holds(x, u)
      ensures fresh(out) && Holds(out, RotatedColumns(u, cols, k)) && out.depth == x.depth
    {
      ResiduesRotated(u, cols, k, t);
      out := new Ciphertext(RotatedColumns(x.slots, cols, k), x.depth);
    }

    method RotateRowsNew(x: Ciphertext, ghost u: seq<int>) returns (out: Ciphertext)
      requires Valid() && Holds(x, u)
      ensures fresh(out) && Holds(out, SwappedRows(u, cols)) && out.depth == x.depth
    {
      ResiduesRotated(u, cols, 0, t);
      out := new Ciphertext(SwappedRows(x.slots, cols), x.depth);
    }

    /** RotateAndAdd into a new ciphertext. */
    method RotateAndAdd(x: Ciphertext, stride: int, m: nat, ghost u: seq<int>) returns (out: Ciphertext)
      requires Valid() && Holds(x, u)
      ensures fresh(out) && Holds(out, RotationSum(u, cols, stride, m)) && out.depth == x.depth
    {
      ResiduesRotationSum(u, cols, stride, m, t);
      out := new Ciphertext(Residues(RotationSum(x.slots, cols, stride, m), t), x.depth);
    }

    /** The depth of the library's polynomial circuit is not part of this model. */
    method EvaluatePolynomial(x: Ciphertext, coefficients: seq<nat>, ghost u: seq<int>) returns (out: Ciphertext)
      requires Valid() && Holds(x, u)
      ensures fresh(out) && Holds(out, PolyValues(coefficients, u))
    {
      ResiduesPoly(coefficients, u, t);
      out := new Ciphertext(Residues(PolyValues(coefficients, x.slots), t), x.depth);
    }
  }

  ghost predicate HoldsAll(ev: Evaluator, cts: seq<Ciphertext>, vs: seq<seq<int>>)
    requires ev.Valid()
    reads cts
  {
    |cts| == |vs| && forall i :: 0 <= i < |cts| ==> ev.Holds(cts[i], vs[i])
  }

  ghost predicate AllAtDepth(cts: seq<Ciphertext>, depth: int)
    reads cts
  {
    forall i :: 0 <= i < |cts| ==> cts[i].depth == depth
  }

  /** The ciphertexts hold the packed n-by-width matrix m. */
  ghost predicate HoldsPacked(ev: Evaluator, g: Grid, cts: seq<Ciphertext>, m: seq<int>, width: nat, n: nat, count: nat)
    requires ev.Valid() && g.Valid()
    reads cts
  {
    |cts| == count && forall i :: 0 <= i < count ==> ev.Holds(cts[i], Packed(g, m, width, n, i))
  }
}
