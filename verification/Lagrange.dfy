/**
 * Interpolation of the majority indicator (helpers.go lagrangeIndicatorCoefficients).
 * Polynomials are coefficient sequences, lowest degree first; their meaning is the
 * integer value Eval gives them, compared modulo the plaintext modulus.
 */
module Lagrange {
  import opened Modular
  import opened ModularHelpers
  import opened Wrappers

  function Eval(c: seq<int>, x: int): int {
    if c == [] then 0 else c[0] + x * Eval(c[1..], x)
  }

  /** The indicator that majority selection needs: 1 above floor(T/2), else 0. */
  function Indicator(T: nat, x: int): int {
    if x > T / 2 then 1 else 0
  }

  /** Meaning of the interpolated coefficients on the values an echo total can take. */
  ghost predicate IsIndicatorPolynomial(c: seq<nat>, T: nat, p: nat)
    requires p > 0
  {
    && |c| == T + 1
    && (forall k :: 0 <= k <= T ==> c[k] < p)
    && forall x :: 0 <= x <= T ==> Eval(c, x) % p == Indicator(T, x)
  }

  // ------------------------------------------------ algebra of coefficients

  lemma {:induction false} EvalAdd(u: seq<int>, v: seq<int>, w: seq<int>, x: int)
    requires |u| == |v| == |w| && forall k :: 0 <= k < |u| ==> w[k] == u[k] + v[k]
    ensures Eval(w, x) == Eval(u, x) + Eval(v, x)
  {
    if u != [] {
      EvalAdd(u[1..], v[1..], w[1..], x);
      Distribute(x, Eval(u[1..], x), Eval(v[1..], x));
    }
  }

  lemma {:induction false} EvalScale(u: seq<int>, v: seq<int>, a: int, x: int)
    requires |u| == |v| && forall k :: 0 <= k < |u| ==> v[k] == a * u[k]
    ensures Eval(v, x) == a * Eval(u, x)
  {
    if u != [] {
      EvalScale(u[1..], v[1..], a, x);
      Distribute(a, u[0], x * Eval(u[1..], x));
      assert x * (a * Eval(u[1..], x)) == a * (x * Eval(u[1..], x));
    }
  }

  lemma {:induction false} EvalPadZero(u: seq<int>, x: int)
    ensures Eval(u + [0], x) == Eval(u, x)
  {
    if u == [] {
      assert Eval([0], x) == 0 + x * Eval([], x);
    } else {
      EvalPadZero(u[1..], x);
      assert (u + [0])[1..] == u[1..] + [0];
    }
  }

  lemma {:induction false} EvalCong(u: seq<int>, v: seq<int>, x: int, p: int)
    requires p > 0 && |u| == |v| && forall k :: 0 <= k < |u| ==> Cong(u[k], v[k], p)
    ensures Cong(Eval(u, x), Eval(v, x), p)
  {
    if u != [] {
      EvalCong(u[1..], v[1..], x, p);
      CongMul(x, x, Eval(u[1..], x), Eval(v[1..], x), p);
      CongAdd(u[0], v[0], x * Eval(u[1..], x), x * Eval(v[1..], x), p);
    }
  }

  /** Evaluation depends only on the residue of the argument. */
  lemma {:induction false} EvalCongArgument(c: seq<int>, x: int, y: int, p: int)
    requires p > 0 && Cong(x, y, p)
    ensures Cong(Eval(c, x), Eval(c, y), p)
  {
    if c != [] {
      EvalCongArgument(c[1..], x, y, p);
      CongMul(x, y, Eval(c[1..], x), Eval(c[1..], y), p);
      CongAdd(c[0], c[0], x * Eval(c[1..], x), y * Eval(c[1..], y), p);
    }
  }

  /** Coefficient k of (x + a) * c, before reduction. */
  function LinearTerm(c: seq<int>, a: int, k: nat): int {
    (if k < |c| then a * c[k] else 0) + (if 1 <= k <= |c| then c[k - 1] else 0)
  }

  lemma EvalLinearExact(c: seq<int>, a: int, exact: seq<int>, x: int)
    requires |exact| == |c| + 1 && forall k :: 0 <= k <= |c| ==> exact[k] == LinearTerm(c, a, k)
    ensures Eval(exact, x) == (x + a) * Eval(c, x)
  {
    var scaled := seq(|c|, k requires 0 <= k < |c| => a * c[k]);
    var shifted := [0] + c;
    EvalScale(c, scaled, a, x);
    EvalPadZero(scaled, x);
    assert shifted[1..] == c;
    EvalAdd(scaled + [0], shifted, exact, x);
    Distribute(Eval(c, x), x, a);
  }

  lemma EvalTimesLinear(c: seq<int>, a: int, next: seq<int>, x: int, p: int)
    requires p > 0 && |next| == |c| + 1
    requires forall k :: 0 <= k <= |c| ==> Cong(next[k], LinearTerm(c, a, k), p)
    ensures Cong(Eval(next, x), (x + a) * Eval(c, x), p)
  {
    var exact := seq(|c| + 1, k requires 0 <= k => LinearTerm(c, a, k));
    EvalLinearExact(c, a, exact, x);
    EvalCong(next, exact, x, p);
  }

  function Scaled(u: seq<int>, a: int): (v: seq<int>)
    ensures |v| == |u|
  {
    seq(|u|, k requires 0 <= k < |u| => a * u[k])
  }

  lemma EvalCongSum(u: seq<int>, v: seq<int>, next: seq<int>, x: int, p: int)
    requires p > 0 && |u| == |v| == |next|
    requires forall k :: 0 <= k < |u| ==> Cong(next[k], u[k] + v[k], p)
    ensures Cong(Eval(next, x), Eval(u, x) + Eval(v, x), p)
  {
    var sum := seq(|u|, k requires 0 <= k < |u| => u[k] + v[k]);
    assert Cong(Eval(next, x), Eval(sum, x), p) by {
      EvalCong(next, sum, x, p);
    }
    assert Eval(sum, x) == Eval(u, x) + Eval(v, x) by {
      EvalAdd(u, v, sum, x);
    }
    CongTo(Eval(next, x), Eval(sum, x), Eval(u, x) + Eval(v, x), p);
  }

  lemma CongTo(a: int, b: int, c: int, p: int)
    requires p > 0 && Cong(a, b, p) && b == c
    ensures Cong(a, c, p)
  {
  }

  // ------------------------------------------------------------ node products

  /** The product of x - j over the nodes j below n other than i. */
  function NodeProduct(x: int, i: nat, n: nat): int {
    if n == 0 then 1
    else if n - 1 == i then NodeProduct(x, i, n - 1)
    else (x - (n - 1)) * NodeProduct(x, i, n - 1)
  }

  lemma {:induction false} NodeProductVanishes(x: nat, i: nat, n: nat)
    requires x < n && x != i
    ensures NodeProduct(x, i, n) == 0
  {
    if x != n - 1 {
      NodeProductVanishes(x, i, n - 1);
    }
  }

  /** All differences of nodes are units modulo p. */
  ghost predicate UnitsUpTo(T: nat, p: nat) {
    forall d: nat :: 1 <= d <= T ==> Gcd(d, p) == 1
  }

  lemma PrimeUnits(T: nat, p: nat)
    requires IsPrime(p) && T < p
    ensures UnitsUpTo(T, p)
  {
    forall d: nat | 1 <= d <= T ensures Gcd(d, p) == 1 {
      if Divides(p, d) {
        DividesBound(p, d);
      }
      PrimeCoprime(p, d);
    }
  }

  lemma DifferenceInverse(f: int, T: nat, p: nat) returns (y: int)
    requires p > 1 && UnitsUpTo(T, p) && f != 0 && 0 - T <= f <= T
    ensures Cong(f * y, 1, p)
  {
    var d: nat := if f > 0 then f else -f;
    var x, z := Bezout(d, p);
    CongFromMultiple(d * x, 1, -z, p);
    y := if f > 0 then x else -x;
    assert f * y == d * x;
  }

  lemma InverseOfProduct(f: int, y: int, product: int, x: int, p: int)
    requires p > 0 && Cong(f * y, 1, p) && Cong(product * x, 1, p)
    ensures Cong(f * product * (y * x), 1, p)
  {
    CongMul(f * y, 1, product * x, 1, p);
    assert (f * y) * (product * x) == f * product * (y * x);
  }

  lemma {:induction false} NodeProductInverse(i: nat, n: nat, T: nat, p: nat) returns (x: int)
    requires p > 1 && UnitsUpTo(T, p) && i <= T && n <= T + 1
    ensures Cong(NodeProduct(i, i, n) * x, 1, p)
  {
    if n == 0 {
      x := 1;
    } else {
      x := NodeProductInverse(i, n - 1, T, p);
      if n - 1 != i {
        var f, product := i - (n - 1), NodeProduct(i, i, n - 1);
        var y := DifferenceInverse(f, T, p);
        InverseOfProduct(f, y, product, x, p);
        x := y * x;
      }
    }
  }

  /** A difference of the last node to another one divides the product of them all. */
  lemma {:induction false} DifferenceDivides(T: nat, n: nat, d: nat)
    requires 1 <= d <= T && T - d < n
    ensures Divides(d, NodeProduct(T, T, n))
  {
    if T - d == n - 1 {
      DividesMultiple(d, NodeProduct(T, T, n - 1));
    } else {
      DifferenceDivides(T, n - 1, d);
      if n - 1 != T {
        DividesLinear(d, NodeProduct(T, T, n - 1), T - (n - 1), NodeProduct(T, T, n - 1), 0);
        assert NodeProduct(T, T, n - 1) * (T - (n - 1)) == (T - (n - 1)) * NodeProduct(T, T, n - 1);
      }
    }
  }

  // ------------------------------------- the algorithm, for every uint64 modulus

  /** Coefficient k of a basis polynomial times x - j, in the wrapping arithmetic of the program. */
  function TimesNodeAt(basis: seq<nat>, j: nat, p: nat, k: nat): nat
    requires 0 < p < TWO_64 && k <= |basis|
  {
    var moved := if k == 0 then 0 else ModAdd(0, basis[k - 1], p);
    if k < |basis| then ModAdd(moved, ModMul(basis[k], ModReduceSigned(0 - j, p), p), p) else moved
  }

  function TimesNodeOf(basis: seq<nat>, j: nat, p: nat): (next: seq<nat>)
    requires 0 < p < TWO_64
    ensures |next| == |basis| + 1
  {
    seq(|basis| + 1, k requires 0 <= k <= |basis| => TimesNodeAt(basis, j, p, k))
  }

  /** The basis polynomial of node i after the nodes below n. */
  function BasisOf(i: nat, n: nat, p: nat): (basis: seq<nat>)
    requires 0 < p < TWO_64
    ensures |basis| == if n <= i then n + 1 else n
  {
    if n == 0 then [1]
    else if n - 1 == i then BasisOf(i, n - 1, p)
    else TimesNodeOf(BasisOf(i, n - 1, p), n - 1, p)
  }

  function DenominatorOf(i: nat, n: nat, p: nat): nat
    requires 0 < p < TWO_64
  {
    if n == 0 then 1
    else if n - 1 == i then DenominatorOf(i, n - 1, p)
    else ModMul(DenominatorOf(i, n - 1, p), ModReduceSigned(i - (n - 1), p), p)
  }

  function AddScaledOf(c: seq<nat>, basis: seq<nat>, scale: nat, p: nat): (next: seq<nat>)
    requires 0 < p && |c| == |basis|
    ensures |next| == |c|
  {
    seq(|c|, k requires 0 <= k < |c| => ModAdd(c[k], ModMul(basis[k], scale, p), p))
  }

  /** The coefficients after the nodes below n; None when a denominator is found not invertible. */
  function CoefficientsOf(T: nat, n: nat, p: nat): (c: Option<seq<nat>>)
    requires T < p < TWO_64 && n <= T + 1
    ensures c.Some? ==> |c.value| == T + 1
  {
    if n == 0 then Some(seq(T + 1, _ => 0))
    else if n - 1 <= T / 2 then CoefficientsOf(T, n - 1, p)
    else
      var before := CoefficientsOf(T, n - 1, p);
      var scale := InverseOf(DenominatorOf(n - 1, T + 1, p), p);
      if before.None? || scale.None? then None
      else Some(AddScaledOf(before.value, BasisOf(n - 1, T + 1, p), scale.value, p))
  }

  /** Multiplies a basis polynomial by x - j, with the program's in-place updates. */
  method TimesNode(basis: seq<nat>, j: nat, p: nat) returns (next: seq<nat>)
    requires 0 < p < TWO_64
    ensures next == TimesNodeOf(basis, j, p)
  {
    var negJ := ModReduceSigned(0 - j, p);
    var buffer := new nat[|basis| + 1](_ => 0);
    for k := 0 to |basis|
      invariant forall m :: k < m < buffer.Length ==> buffer[m] == 0
      invariant buffer[k] == if k == 0 then 0 else ModAdd(0, basis[k - 1], p)
      invariant forall m :: 0 <= m < k ==> buffer[m] == TimesNodeAt(basis, j, p, m)
    {
      buffer[k] := ModAdd(buffer[k], ModMul(basis[k], negJ, p), p);
      buffer[k + 1] := ModAdd(buffer[k + 1], basis[k], p);
    }
    next := buffer[..];
  }

  /** One node's basis polynomial and its denominator: the inner loop. */
  method NodeBasis(i: nat, T: nat, modulus: nat) returns (basis: seq<nat>, denominator: nat)
    requires i <= T < modulus < TWO_64
    ensures basis == BasisOf(i, T + 1, modulus) && denominator == DenominatorOf(i, T + 1, modulus)
  {
    basis, denominator := [1], 1;
    for j := 0 to T + 1
      invariant basis == BasisOf(i, j, modulus) && denominator == DenominatorOf(i, j, modulus)
    {
      if j == i {
        continue;
      }
      basis := TimesNode(basis, j, modulus);
      denominator := ModMul(denominator, ModReduceSigned(i - j, modulus), modulus);
    }
  }

  method AddScaled(c: seq<nat>, basis: seq<nat>, scale: nat, p: nat) returns (next: seq<nat>)
    requires 0 < p && |c| == |basis|
    ensures next == AddScaledOf(c, basis, scale, p)
  {
    var coeffs := new nat[|c|](k requires 0 <= k < |c| => c[k]);
    for k := 0 to |basis|
      invariant forall m :: k <= m < |c| ==> coeffs[m] == c[m]
      invariant forall m :: 0 <= m < k ==> coeffs[m] == ModAdd(c[m], ModMul(basis[m], scale, p), p)
    {
      coeffs[k] := ModAdd(coeffs[k], ModMul(basis[k], scale, p), p);
    }
    next := coeffs[..];
  }

  /** One node: its basis, scaled by the inverse of its denominator, joins the coefficients. */
  method AddNode(T: nat, modulus: nat, i: nat, coeffs: seq<nat>) returns (next: Option<seq<nat>>)
    requires T / 2 < i <= T < modulus < TWO_64 && CoefficientsOf(T, i, modulus) == Some(coeffs)
    ensures next == CoefficientsOf(T, i + 1, modulus)
  {
    var basis, denominator := NodeBasis(i, T, modulus);
    var scale := ModInverse(denominator, modulus);
    if scale.None? {
      return None;
    }
    var sum := AddScaled(coeffs, basis, scale.value, modulus);
    return Some(sum);
  }

  /** The loop over the nodes. */
  method Interpolate(T: nat, modulus: nat) returns (result: Option<seq<nat>>)
    requires T < modulus < TWO_64
    ensures result == CoefficientsOf(T, T + 1, modulus)
  {
    var coeffs := seq(T + 1, _ => 0);
    var threshold := T / 2;
    for i := 0 to T + 1
      invariant CoefficientsOf(T, i, modulus) == Some(coeffs)
    {
      if i <= threshold {
        continue;
      }
      var next := AddNode(T, modulus, i, coeffs);
      if next.None? {
        StaysNone(T, i + 1, T + 1, modulus);
        return None;
      }
      coeffs := next.value;
    }
    return Some(coeffs);
  }

  /**
   * helpers.go lagrangeIndicatorCoefficients, for every modulus that its assertions
   * admit. None stands for the failed assertion of modInverse.
   */
  method LagrangeIndicatorCoefficients(T: nat, modulus: nat) returns (result: Option<seq<nat>>)
    requires T < modulus < TWO_64
    ensures result == CoefficientsOf(T, T + 1, modulus)
    ensures ExactFor(T, modulus) ==> Interpolates(T, modulus)
    ensures 1 < modulus <= TWO_32 ==>
      (result.Some? <==> UnitsUpTo(T, modulus)) && (result.Some? ==> Interpolates(T, modulus))
  {
    result := Interpolate(T, modulus);
    ExactInterpolates(T, modulus);
    if 1 < modulus <= TWO_32 {
      InterpolatesIffUnits(T, modulus);
    }
  }

  lemma {:induction false} StaysNone(T: nat, m: nat, n: nat, p: nat)
    requires T < p < TWO_64 && T / 2 < m <= n <= T + 1 && CoefficientsOf(T, m, p).None?
    ensures CoefficientsOf(T, n, p).None?
  {
    if m < n {
      StaysNone(T, m, n - 1, p);
    }
  }

  // --------------------------------------------------- where it interpolates

  /** The coefficients are those of the indicator. */
  ghost predicate Interpolates(T: nat, p: nat)
    requires T < p < TWO_64
  {
    var c := CoefficientsOf(T, T + 1, p);
    c.Some? && IsIndicatorPolynomial(c.value, T, p)
  }

  /** Primes whose residues have exact uint64 products, and the sizes that need none. */
  ghost predicate ExactFor(T: nat, p: nat) {
    IsPrime(p) && (p <= TWO_32 || T <= 1)
  }

  /** The coefficients exist and select every one of the given totals rightly. */
  ghost predicate SelectsRightly(T: nat, p: nat, totals: seq<int>)
    requires T < p < TWO_64
  {
    var c := CoefficientsOf(T, T + 1, p);
    c.Some? && forall i :: 0 <= i < |totals| ==> Eval(c.value, totals[i]) % p == Indicator(T, totals[i])
  }

  lemma {:induction false} CoefficientsReduced(T: nat, n: nat, p: nat)
    requires T < p < TWO_64 && n <= T + 1 && CoefficientsOf(T, n, p).Some?
    ensures forall k :: 0 <= k <= T ==> CoefficientsOf(T, n, p).value[k] < p
  {
    if n > 0 {
      CoefficientsReduced(T, n - 1, p);
    }
  }

  /** An interpolation that selects every total in 0..T rightly is exact. */
  lemma RightOnAllTotals(T: nat, p: nat)
    requires T < p < TWO_64 && CoefficientsOf(T, T + 1, p).Some?
    requires forall x :: 0 <= x <= T ==> Eval(CoefficientsOf(T, T + 1, p).value, x) % p == Indicator(T, x)
    ensures Interpolates(T, p)
  {
    CoefficientsReduced(T, T + 1, p);
  }

  ghost predicate BasisUpTo(basis: seq<nat>, denominator: nat, i: nat, j: nat, p: nat)
    requires p > 0
  {
    && (forall k :: 0 <= k < |basis| ==> basis[k] < p)
    && denominator < p
    && Cong(denominator, NodeProduct(i, i, j), p)
    && forall x :: Cong(Eval(basis, x), NodeProduct(x, i, j), p)
  }

  lemma LinearTermReduced(coefficient: nat, a: nat, previous: nat, p: nat)
    requires coefficient < p && a < p && previous < p <= TWO_32
    ensures Cong(ModAdd(previous, ModMul(coefficient, a, p), p), a * coefficient + previous, p)
  {
    ModAddMod(coefficient * a, previous, p);
    CongMod(coefficient * a + previous, p);
  }

  lemma MovedReduced(coefficient: nat, p: nat)
    requires coefficient < p <= TWO_32
    ensures ModAdd(0, coefficient, p) == coefficient
  {
    SmallMod(coefficient, p);
  }

  lemma TimesNodeTerm(basis: seq<nat>, j: nat, p: nat, k: nat)
    requires 1 < p <= TWO_32 && j < TWO_63 && k <= |basis| && forall m :: 0 <= m < |basis| ==> basis[m] < p
    ensures TimesNodeAt(basis, j, p, k) < p
    ensures Cong(TimesNodeAt(basis, j, p, k), LinearTerm(basis, ModReduceSigned(0 - j, p), k), p)
  {
    var negJ := ModReduceSigned(0 - j, p);
    ReducesBelow63Bits(0 - j, p);
    if k > 0 {
      MovedReduced(basis[k - 1], p);
    }
    if k < |basis| {
      LinearTermReduced(basis[k], negJ, if k == 0 then 0 else basis[k - 1], p);
    }
  }

  /** With exact products a step multiplies the polynomial by x - j. */
  lemma TimesNodeExact(basis: seq<nat>, j: nat, p: nat)
    requires 1 < p <= TWO_32 && j < TWO_63 && forall m :: 0 <= m < |basis| ==> basis[m] < p
    ensures forall k :: 0 <= k <= |basis| ==> TimesNodeOf(basis, j, p)[k] < p
    ensures forall x :: Cong(Eval(TimesNodeOf(basis, j, p), x), (x - j) * Eval(basis, x), p)
  {
    var negJ, next := ModReduceSigned(0 - j, p), TimesNodeOf(basis, j, p);
    ReducesBelow63Bits(0 - j, p);
    forall k | 0 <= k <= |basis| ensures next[k] < p && Cong(next[k], LinearTerm(basis, negJ, k), p) {
      TimesNodeTerm(basis, j, p, k);
    }
    forall x ensures Cong(Eval(next, x), (x - j) * Eval(basis, x), p) {
      EvalTimesLinear(basis, negJ, next, x, p);
      CongAdd(x, x, negJ, 0 - j, p);
      CongMul(x + negJ, x - j, Eval(basis, x), Eval(basis, x), p);
    }
  }

  lemma NodeFactor(x: int, i: nat, j: nat, value: int, basis: int, p: nat)
    requires p > 0 && j != i && Cong(basis, NodeProduct(x, i, j), p) && Cong(value, (x - j) * basis, p)
    ensures Cong(value, NodeProduct(x, i, j + 1), p)
  {
    CongMul(x - j, x - j, basis, NodeProduct(x, i, j), p);
  }

  lemma DenominatorStep(i: nat, j: nat, denominator: nat, p: nat)
    requires 1 < p <= TWO_32 && j != i && i < TWO_63 && j < TWO_63
    requires denominator < p && Cong(denominator, NodeProduct(i, i, j), p)
    ensures var d := ModMul(denominator, ModReduceSigned(i - j, p), p);
      d < p && Cong(d, NodeProduct(i, i, j + 1), p)
  {
    var difference := ModReduceSigned(i - j, p);
    ReducesBelow63Bits(i - j, p);
    CongMod(denominator * difference, p);
    CongMul(difference, i - j, denominator, denominator, p);
    assert difference * denominator == denominator * difference;
    NodeFactor(i, i, j, (denominator * difference) % p, denominator, p);
  }

  lemma BasisStart(i: nat, p: nat)
    requires 1 < p < TWO_64
    ensures BasisUpTo(BasisOf(i, 0, p), DenominatorOf(i, 0, p), i, 0, p)
  {
    assert forall x :: Eval([1], x) == 1 by {
      assert forall x: int :: x * Eval([], x) == 0;
    }
  }

  lemma BasisStep(i: nat, j: nat, p: nat)
    requires 1 < p <= TWO_32 && i < TWO_63 && j < TWO_63 && j != i
    requires BasisUpTo(BasisOf(i, j, p), DenominatorOf(i, j, p), i, j, p)
    ensures BasisUpTo(BasisOf(i, j + 1, p), DenominatorOf(i, j + 1, p), i, j + 1, p)
  {
    var basis := BasisOf(i, j, p);
    var next := TimesNodeOf(basis, j, p);
    TimesNodeExact(basis, j, p);
    DenominatorStep(i, j, DenominatorOf(i, j, p), p);
    forall x ensures Cong(Eval(next, x), NodeProduct(x, i, j + 1), p) {
      NodeFactor(x, i, j, Eval(next, x), Eval(basis, x), p);
    }
  }

  /** A node's own factor is left out. */
  lemma BasisSkip(i: nat, p: nat)
    requires 1 < p < TWO_64 && BasisUpTo(BasisOf(i, i, p), DenominatorOf(i, i, p), i, i, p)
    ensures BasisUpTo(BasisOf(i, i + 1, p), DenominatorOf(i, i + 1, p), i, i + 1, p)
  {
    var basis := BasisOf(i, i + 1, p);
    forall x ensures Cong(Eval(basis, x), NodeProduct(x, i, i + 1), p) {
      assert Cong(Eval(BasisOf(i, i, p), x), NodeProduct(x, i, i), p);
    }
  }

  lemma {:induction false} BasisExact(i: nat, n: nat, p: nat)
    requires 1 < p <= TWO_32 && i < TWO_63 && n < TWO_63
    ensures BasisUpTo(BasisOf(i, n, p), DenominatorOf(i, n, p), i, n, p)
  {
    if n == 0 {
      BasisStart(i, p);
    } else {
      BasisExact(i, n - 1, p);
      if n - 1 == i {
        BasisSkip(i, p);
      } else {
        BasisStep(i, n - 1, p);
      }
    }
  }

  /** Where the differences of the nodes are units, so is every denominator. */
  lemma DenominatorInvertible(i: nat, T: nat, p: nat)
    requires 1 < p <= TWO_32 && i <= T < p && UnitsUpTo(T, p)
    ensures Gcd(DenominatorOf(i, T + 1, p), p) == 1
  {
    BasisExact(i, T + 1, p);
    var x := NodeProductInverse(i, T + 1, T, p);
    CongMul(DenominatorOf(i, T + 1, p), NodeProduct(i, i, T + 1), x, x, p);
    InvertibleIffCoprime(DenominatorOf(i, T + 1, p), x, p);
  }

  /** Otherwise the denominator of the last node is no unit. */
  lemma DenominatorStuck(T: nat, p: nat, d: nat)
    requires 1 < p <= TWO_32 && 1 <= d <= T < p && Gcd(d, p) != 1
    ensures Gcd(DenominatorOf(T, T + 1, p), p) != 1
  {
    var g, denominator := Gcd(d, p), DenominatorOf(T, T + 1, p);
    GcdDivides(d, p);
    BasisExact(T, T + 1, p);
    DifferenceDivides(T, T + 1, d);
    var k := CongQuotient(denominator, NodeProduct(T, T, T + 1), p);
    var j := DividesQuotient(d, NodeProduct(T, T, T + 1));
    DividesLinear(g, d, j, p, k);
    assert d * j + p * k == denominator;
    GcdIsGreatest(denominator, p, g);
    if Gcd(denominator, p) == 1 {
      DividesBound(g, 1);
    }
  }

  /** After the nodes up to i, the sum of scaled bases is the indicator cut off at i. */
  ghost predicate InterpolatedUpTo(c: seq<nat>, T: nat, i: nat, p: nat)
    requires p > 0
  {
    && (forall k :: 0 <= k < |c| ==> c[k] < p)
    && forall x :: 0 <= x <= T ==> Cong(Eval(c, x), if x < i then Indicator(T, x) else 0, p)
  }

  /** A scaled basis value: 1 at its own node, 0 at the other nodes. */
  lemma ScaledNode(value: int, scale: int, basis: int, node: int, denominator: int, own: bool, p: int)
    requires p > 1 && value == scale * basis && Cong(basis, node, p)
    requires own ==> Cong(denominator, node, p) && Cong(denominator * scale, 1, p)
    requires !own ==> node == 0
    ensures Cong(value, if own then 1 else 0, p)
  {
    CongMul(scale, scale, basis, node, p);
    if own {
      CongMul(scale, scale, denominator, node, p);
      assert scale * denominator == denominator * scale;
    }
  }

  lemma InterpolationStep(c: seq<nat>, T: nat, i: nat, p: nat, basis: seq<nat>, denominator: nat, scale: nat,
      next: seq<nat>)
    requires 1 < p <= TWO_32 && T / 2 < i <= T < p && InterpolatedUpTo(c, T, i, p)
    requires BasisUpTo(basis, denominator, i, T + 1, p) && Cong(denominator * scale, 1, p)
    requires |c| == |basis| == |next|
    requires forall k :: 0 <= k < |c| ==> next[k] < p && Cong(next[k], c[k] + Scaled(basis, scale)[k], p)
    ensures InterpolatedUpTo(next, T, i + 1, p)
  {
    var scaled := Scaled(basis, scale);
    forall x | 0 <= x <= T
      ensures Cong(Eval(next, x), if x < i + 1 then Indicator(T, x) else 0, p)
    {
      EvalCongSum(c, scaled, next, x, p);
      EvalScale(basis, scaled, scale, x);
      if x != i {
        NodeProductVanishes(x, i, T + 1);
      }
      ScaledNode(Eval(scaled, x), scale, Eval(basis, x), NodeProduct(x, i, T + 1), denominator, x == i, p);
      CongAdd(Eval(c, x), if x < i then Indicator(T, x) else 0, Eval(scaled, x), if x == i then 1 else 0, p);
    }
  }

  lemma ScaledTerm(c: nat, b: nat, scale: nat, p: nat)
    requires 0 < p <= TWO_32 && scale < p && c < p && b < p
    ensures Cong(ModAdd(c, ModMul(b, scale, p), p), c + scale * b, p)
  {
    ModAddMod(b * scale, c, p);
    CongMod(c + scale * b, p);
  }

  lemma {:induction false} CoefficientsExact(T: nat, n: nat, p: nat)
    requires 1 < p <= TWO_32 && T < p && n <= T + 1 && UnitsUpTo(T, p)
    ensures var c := CoefficientsOf(T, n, p); c.Some? && InterpolatedUpTo(c.value, T, n, p)
  {
    if n == 0 {
      var zeros: seq<nat> := seq(T + 1, _ => 0);
      forall x ensures Eval(zeros, x) == 0 {
        EvalScale(zeros, zeros, 0, x);
      }
    } else {
      CoefficientsExact(T, n - 1, p);
      if n - 1 > T / 2 {
        NodeAdded(T, n - 1, p, CoefficientsOf(T, n - 1, p).value);
      }
    }
  }

  lemma NodeAdded(T: nat, i: nat, p: nat, before: seq<nat>)
    requires 1 < p <= TWO_32 && T / 2 < i <= T < p && UnitsUpTo(T, p) && CoefficientsOf(T, i, p) == Some(before)
    requires InterpolatedUpTo(before, T, i, p)
    ensures var c := CoefficientsOf(T, i + 1, p); c.Some? && InterpolatedUpTo(c.value, T, i + 1, p)
  {
    var basis, denominator := BasisOf(i, T + 1, p), DenominatorOf(i, T + 1, p);
    BasisExact(i, T + 1, p);
    DenominatorInvertible(i, T, p);
    InverseBelow63Bits(denominator, p);
    SmallMod(1, p);
    var scale := InverseOf(denominator, p).value;
    AddedTerms(before, basis, scale, p);
    InterpolationStep(before, T, i, p, basis, denominator, scale, AddScaledOf(before, basis, scale, p));
  }

  lemma AddedTerms(c: seq<nat>, basis: seq<nat>, scale: nat, p: nat)
    requires 0 < p <= TWO_32 && scale < p && |c| == |basis|
    requires forall k :: 0 <= k < |c| ==> c[k] < p && basis[k] < p
    ensures forall k :: 0 <= k < |c| ==>
      AddScaledOf(c, basis, scale, p)[k] < p
        && Cong(AddScaledOf(c, basis, scale, p)[k], c[k] + Scaled(basis, scale)[k], p)
  {
    var next := AddScaledOf(c, basis, scale, p);
    forall k | 0 <= k < |c| ensures next[k] < p && Cong(next[k], c[k] + Scaled(basis, scale)[k], p) {
      ScaledTerm(c[k], basis[k], scale, p);
    }
  }

  lemma NoPeriodInterpolates(p: nat)
    requires 0 < p < TWO_64
    ensures Interpolates(0, p)
  {
    var zeros: seq<nat> := seq(0 + 1, _ => 0);
    assert zeros == [0] && CoefficientsOf(0, 0, p) == Some(zeros);
    SmallMod(0, p);
    assert Eval([0], 0) == 0;
  }

  /** The inner loop of node 1 of 0..1, when 1 reduces to itself. */
  lemma SingleNode(p: nat)
    requires 1 < p < TWO_64 && ModReduceSigned(1, p) == 1
    ensures BasisOf(1, 2, p) == [0, 1] && DenominatorOf(1, 2, p) == 1
  {
    SmallMod(0, p);
    SmallMod(1, p);
    Wrap64Small(0);
    Wrap64Small(1);
    var negJ := ModReduceSigned(0, p);
    assert negJ == 0 by {
      Int64Small(0);
    }
    assert BasisOf(1, 0, p) == [1];
    assert TimesNodeAt([1], 0, p, 0) == 0 && TimesNodeAt([1], 0, p, 1) == 1;
    assert TimesNodeOf([1], 0, p) == [0, 1];
    assert BasisOf(1, 1, p) == [0, 1];
    assert DenominatorOf(1, 0, p) == 1;
    assert DenominatorOf(1, 1, p) == 1;
  }

  lemma LinearIndicator(p: nat)
    requires 1 < p
    ensures IsIndicatorPolynomial([0, 1], 1, p)
  {
    SmallMod(0, p);
    SmallMod(1, p);
    forall x | 0 <= x <= 1 ensures Eval([0, 1], x) == x {
      assert [0, 1][1..] == [1] && [1][1..] == [];
      assert Eval([1], x) == 1 + x * Eval([], x);
    }
  }

  /** With one period the polynomial is x, for every modulus but the largest uint64. */
  lemma OnePeriodInterpolates(p: nat)
    requires 1 < p < TWO_64
    ensures Interpolates(1, p) <==> p < TWO_64 - 1
  {
    if p < TWO_63 {
      ReducesBelow63Bits(1, p);
      SmallMod(1, p);
      SmallMod(ModReduceSigned(1, p), p);
    } else {
      ReducesFrom63Bits(1, p);
      SmallMod(1, p);
    }
    var zeros: seq<nat> := seq(1 + 1, _ => 0);
    assert zeros == [0, 0] && CoefficientsOf(1, 0, p) == Some(zeros);
    assert CoefficientsOf(1, 1, p) == Some([0, 0]);
    if p < TWO_64 - 1 {
      SingleNode(p);
      InverseOfOne(p);
      SmallMod(0, p);
      Wrap64Small(0);
      Wrap64Small(1);
      assert AddScaledOf([0, 0], [0, 1], 1, p) == [0, 1];
      LinearIndicator(p);
    } else {
      LargestModulusFails();
    }
  }

  lemma LargestModulusFails()
    ensures CoefficientsOf(1, 2, TWO_64 - 1).None?
  {
    var p := TWO_64 - 1;
    CongFromMultiple(p, -1, 1, TWO_64);
    Int64Is(p, -1);
    assert ModReduceSigned(1, p) == 0;
    assert DenominatorOf(1, 0, p) == 1;
    assert DenominatorOf(1, 1, p) == 0;
    assert DenominatorOf(1, 2, p) == 0;
    Int64Small(0);
    assert EuclidLoop(0, 1, -1, 0) == (0, -1);
  }

  lemma PrimeBelowLargest(p: nat)
    requires IsPrime(p) && p < TWO_64
    ensures p < TWO_64 - 1
  {
    assert (TWO_64 - 1) % 3 == 0;
    if p == TWO_64 - 1 {
      assert Divides(3, p);
      assert false;
    }
  }

  /**
   * For a modulus of at most 32 bits, prime or not, the coefficients interpolate the
   * indicator if and only if the numbers up to T are units; otherwise an assertion fails.
   */
  lemma InterpolatesIffUnits(T: nat, p: nat)
    requires T < p && 1 < p <= TWO_32
    ensures Interpolates(T, p) <==> UnitsUpTo(T, p)
    ensures !UnitsUpTo(T, p) ==> CoefficientsOf(T, T + 1, p).None?
  {
    if UnitsUpTo(T, p) {
      CoefficientsExact(T, T + 1, p);
      var c := CoefficientsOf(T, T + 1, p).value;
      forall x | 0 <= x <= T ensures Eval(c, x) % p == Indicator(T, x) {
        assert Cong(Eval(c, x), Indicator(T, x), p);
        SmallMod(Indicator(T, x), p);
      }
    } else {
      var d: nat :| 1 <= d <= T && Gcd(d, p) != 1;
      DenominatorStuck(T, p, d);
      InverseBelow63Bits(DenominatorOf(T, T + 1, p), p);
    }
  }

  /** For every prime of at most 32 bits, and for at most one period, the coefficients interpolate the indicator. */
  lemma ExactInterpolates(T: nat, p: nat)
    requires T < p < TWO_64
    ensures ExactFor(T, p) ==> Interpolates(T, p)
  {
    if T == 0 {
      NoPeriodInterpolates(p);
    } else if T == 1 {
      OnePeriodInterpolates(p);
      if IsPrime(p) {
        PrimeBelowLargest(p);
      }
    } else if IsPrime(p) && p <= TWO_32 {
      PrimeUnits(T, p);
      InterpolatesIffUnits(T, p);
    }
  }
}
