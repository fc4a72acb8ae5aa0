/**
 * Where lagrangeIndicatorCoefficients stops interpolating the indicator. Above 2^32
 * the uint64 products of residues lose multiples of 2^64, which an odd modulus does
 * not divide; for two, three and five periods this decides exactly when the
 * coefficients are wrong.
 */
module LagrangeLimits {
  import opened Modular
  import opened ModularHelpers
  import opened Wrappers
  import opened Lagrange

  // ------------------------------------------------------- cancelling factors

  lemma HalfDivides(p: int, x: int)
    requires p % 2 == 1 && Divides(p, 2 * x)
    ensures Divides(p, x)
  {
    var k := DividesQuotient(p, 2 * x);
    var j := k / 2;
    assert k == 2 * j + k % 2;
    assert k * p == 2 * (j * p) + (k % 2) * p;
    assert k % 2 == 0;
    DividesMultiple(p, j);
  }

  lemma {:induction false} PowerOfTwoDivides(p: int, e: nat, x: int)
    requires p % 2 == 1 && Divides(p, PowTwo(e) * x)
    ensures Divides(p, x)
  {
    if e > 0 {
      assert PowTwo(e) * x == 2 * (PowTwo(e - 1) * x);
      HalfDivides(p, PowTwo(e - 1) * x);
      PowerOfTwoDivides(p, e - 1, x);
    }
  }

  /** An odd number divides a lost multiple of 2^64 only by dividing the multiplier. */
  lemma LossDivides(p: int, x: int)
    requires p > 0 && p % 2 == 1 && Cong(x * TWO_64, 0, p)
    ensures Divides(p, x)
  {
    DividesCong(x * TWO_64, 0, p);
    PowTwo64();
    PowerOfTwoDivides(p, 64, x);
  }

  lemma ScaledIdentity(p: int, u: int, c: int, v: int, x: int)
    requires p * u + c * v == 1
    ensures p * (u * x) + c * x * v == x
  {
    Distribute(x, p * u, c * v);
    assert p * (u * x) == (p * u) * x;
    assert c * x * v == (c * v) * x;
  }

  /** A prime that does not divide p can be cancelled. */
  lemma CoprimeDivides(p: nat, c: nat, x: int)
    requires p > 0 && IsPrime(c) && !Divides(c, p) && Divides(p, c * x)
    ensures Divides(p, x)
  {
    PrimeCoprime(c, p);
    var u, v := Bezout(p, c);
    DividesMultiple(p, 1);
    DividesLinear(p, p, u * x, c * x, v);
    ScaledIdentity(p, u, c, v, x);
  }

  lemma SmallMultipleIsZero(p: int, x: int)
    requires Divides(p, x) && -p < x < p
    ensures x == 0
  {
    if x > 0 {
      DividesBound(p, x);
    } else if x < 0 {
      DividesLinear(p, x, -1, x, 0);
      assert x * -1 + x * 0 == -x;
      DividesBound(p, -x);
    }
  }

  // ---------------------------------------------------------- lossy products

  /** The multiples of 2^64 that a uint64 product drops. */
  function Lost(x: nat, y: nat): nat {
    x * y / TWO_64
  }

  /** A wrapped product of a residue of r with y, modulo p. */
  lemma LossyProduct(x: nat, r: int, y: nat, p: nat)
    requires p > 0 && Cong(x, r, p)
    ensures Cong(ModMul(x, y, p), r * y - Lost(x, y) * TWO_64, p)
  {
    var product := x * y;
    assert product == Lost(x, y) * TWO_64 + Wrap64(product);
    CongMod(Wrap64(product), p);
    CongMul(x, r, y, y, p);
    CongSub(product, r * y, Lost(x, y) * TWO_64, Lost(x, y) * TWO_64, p);
  }

  lemma LostBelow(x: nat, y: nat, k: nat)
    requires x * y < k * TWO_64
    ensures Lost(x, y) < k
  {
  }

  /** A product of residues drops less than p, and of residues below 2^63 less than half of it. */
  lemma LostIsSmall(x: nat, y: nat, p: nat)
    requires x < p && y < p < TWO_63
    ensures 2 * Lost(x, y) < p
  {
    MulMonotone(x, p, y, p - 1);
    MulMonotone(p, TWO_63, p - 1, p - 1);
    assert x * y == Lost(x, y) * TWO_64 + Wrap64(x * y);
  }

  lemma ExactProduct(x: nat, y: nat, p: nat)
    requires p > 0 && x * y < TWO_64
    ensures ModMul(x, y, p) == (x * y) % p
  {
    Wrap64Small(x * y);
  }

  lemma ExactSum(x: nat, y: nat, p: nat)
    requires x < p && y < p < TWO_63
    ensures ModAdd(x, y, p) < p && Cong(ModAdd(x, y, p), x + y, p)
    ensures x + y < p ==> ModAdd(x, y, p) == x + y
    ensures x + y >= p ==> ModAdd(x, y, p) == x + y - p
  {
    Wrap64Small(x + y);
    CongMod(x + y, p);
    if x + y < p {
      SmallMod(x + y, p);
    } else {
      DivModUnique(x + y, 1, x + y - p, p);
    }
  }

  lemma ReducedNode(v: int, p: nat)
    requires 1 < p < TWO_63 && 0 - p < v < p
    ensures ModReduceSigned(v, p) == if v >= 0 then v else v + p
  {
    ReducesBelow63Bits(v, p);
    SmallMod(ModReduceSigned(v, p), p);
    if v >= 0 {
      SmallMod(v, p);
    } else {
      DivModUnique(v, -1, v + p, p);
    }
  }

  // ------------------------------------------------- basis polynomials by hand

  lemma FirstNode(p: nat)
    requires 1 < p < TWO_63
    ensures TimesNodeOf([1], 0, p) == [0, 1]
  {
    ReducedNode(0, p);
    SmallMod(0, p);
    SmallMod(1, p);
    Wrap64Small(0);
    Wrap64Small(1);
    assert TimesNodeAt([1], 0, p, 0) == 0 && TimesNodeAt([1], 0, p, 1) == 1;
  }

  lemma SecondNode(j: nat, p: nat)
    requires 0 < j < p < TWO_63
    ensures TimesNodeOf([0, 1], j, p) == [0, p - j, 1]
  {
    ReducedNode(0 - j, p);
    ExactProduct(0, p - j, p);
    ExactProduct(1, p - j, p);
    SmallMod(0, p);
    SmallMod(p - j, p);
    ExactSum(0, 0, p);
    ExactSum(0, p - j, p);
    ExactSum(0, 1, p);
    var b: seq<nat> := [0, 1];
    assert TimesNodeAt(b, j, p, 0) == 0 && TimesNodeAt(b, j, p, 1) == p - j && TimesNodeAt(b, j, p, 2) == 1;
  }

  lemma ThirdNode(a: nat, j: nat, p: nat)
    requires 0 < j < p < TWO_63 && a < p
    ensures TimesNodeOf([0, a, 1], j, p) == [0, ModMul(a, p - j, p), ModAdd(a, p - j, p), 1]
  {
    ReducedNode(0 - j, p);
    ExactProduct(0, p - j, p);
    ExactProduct(1, p - j, p);
    SmallMod(0, p);
    SmallMod(p - j, p);
    ExactSum(0, 0, p);
    ExactSum(0, a, p);
    ExactSum(0, 1, p);
    ExactSum(0, ModMul(a, p - j, p), p);
    var b: seq<nat> := [0, a, 1];
    assert TimesNodeAt(b, j, p, 0) == 0 && TimesNodeAt(b, j, p, 1) == ModMul(a, p - j, p);
    assert TimesNodeAt(b, j, p, 2) == ModAdd(a, p - j, p) && TimesNodeAt(b, j, p, 3) == 1;
  }

  /** The nodes 0 and 1, for a later node i. */
  lemma FirstTwoNodes(i: nat, p: nat)
    requires 1 < i < p < TWO_63
    ensures BasisOf(i, 2, p) == [0, p - 1, 1]
  {
    assert BasisOf(i, 0, p) == [1];
    FirstNode(p);
    assert BasisOf(i, 1, p) == [0, 1];
    SecondNode(1, p);
  }

  /** One factor of a denominator, when its product is exact. */
  lemma DenominatorFactor(i: nat, j: nat, before: nat, p: nat)
    requires i != j && i < p && j < p < TWO_63 && 1 < p && DenominatorOf(i, j, p) == before
    ensures var factor := if i > j then i - j else i - j + p;
      && DenominatorOf(i, j + 1, p) == ModMul(before, factor, p)
      && (before * factor < TWO_64 ==> DenominatorOf(i, j + 1, p) == (before * factor) % p)
  {
    ReducedNode(i - j, p);
    var factor := if i > j then i - j else i - j + p;
    if before * factor < TWO_64 {
      ExactProduct(before, factor, p);
    }
  }

  /** Every basis polynomial has the leading coefficient 1. */
  lemma {:induction false} LeadingIsOne(i: nat, n: nat, p: nat)
    requires 1 < p < TWO_64
    ensures var b := BasisOf(i, n, p); |b| > 0 && b[|b| - 1] == 1
  {
    if n > 0 {
      LeadingIsOne(i, n - 1, p);
      Wrap64Small(1);
      SmallMod(1, p);
    }
  }

  // --------------------------------------------------------------- two periods

  lemma QuadraticIndicator(a: nat, b: nat, p: nat)
    requires p > 1 && IsIndicatorPolynomial([0, a, b], 2, p)
    ensures Cong(a + b, 0, p) && Cong(2 * a + 4 * b, 1, p)
  {
    var c: seq<nat> := [0, a, b];
    forall x | 0 <= x <= 2 ensures Eval(c, x) == a * x + b * x * x {
      EvalQuadratic(a, b, x);
    }
    SmallMod(0, p);
    SmallMod(1, p);
    assert Eval(c, 1) % p == 0 && Eval(c, 2) % p == 1;
  }

  lemma EvalQuadratic(a: int, b: int, x: int)
    ensures Eval([0, a, b], x) == a * x + b * x * x
  {
    assert [0, a, b][1..] == [a, b] && [a, b][1..] == [b] && [b][1..] == [];
    assert Eval([b], x) == b;
    assert Eval([a, b], x) == a + x * b;
    Distribute(x, a, x * b);
    assert x * (x * b) == b * x * x;
  }

  lemma TwoPeriodCoefficients(p: nat, s: nat)
    requires 2 < p < TWO_63 && InverseOf(2, p) == Some(s) && s < p
    ensures CoefficientsOf(2, 3, p) == Some([0, ModMul(p - 1, s, p), s])
  {
    FirstTwoNodes(2, p);
    assert DenominatorOf(2, 0, p) == 1;
    DenominatorFactor(2, 0, 1, p);
    SmallMod(2, p);
    DenominatorFactor(2, 1, 2, p);
    var zeros: seq<nat> := seq(2 + 1, _ => 0);
    assert zeros == [0, 0, 0] && CoefficientsOf(2, 0, p) == Some(zeros);
    assert CoefficientsOf(2, 1, p) == Some(zeros) && CoefficientsOf(2, 2, p) == Some(zeros);
    FromZeros3(p - 1, s, p);
  }

  lemma FromZeros3(a: nat, s: nat, p: nat)
    requires 1 < p < TWO_63 && s < p
    ensures AddScaledOf([0, 0, 0], [0, a, 1], s, p) == [0, ModMul(a, s, p), s]
  {
    ExactProduct(0, s, p);
    ExactProduct(1, s, p);
    SmallMod(0, p);
    SmallMod(s, p);
    ExactSum(0, 0, p);
    ExactSum(0, ModMul(a, s, p), p);
    ExactSum(0, s, p);
  }

  lemma HalfOfSuccessor(s: int, p: int)
    requires 2 < p && 0 <= s < p && Cong(2 * s, 1, p)
    ensures 2 * s == p + 1
  {
    var k := CongQuotient(2 * s, 1, p);
    assert k >= 2 ==> k * p >= 2 * p;
    assert k <= -1 ==> k * p <= -p;
  }

  /** The inverse of 2, exactly. */
  lemma InverseOfTwo(p: nat)
    requires 2 < p < TWO_63 && p % 2 == 1
    ensures InverseOf(2, p).Some? && 2 * InverseOf(2, p).value == p + 1
  {
    var h := p / 2;
    CongFromMultiple(2 * (h + 1), 1, 1, p);
    InvertibleIffCoprime(2, h + 1, p);
    InverseBelow63Bits(2, p);
    SmallMod(1, p);
    HalfOfSuccessor(InverseOf(2, p).value, p);
  }

  /** Where the coefficient c1 misses -s by w lost multiples of 2^64, c1 + s vanishes only if they do. */
  lemma LossVanishes(c1: int, s: int, w: int, p: int)
    requires p > 0 && Cong(c1, -1 * s - w * TWO_64, p) && Cong(c1 + s, 0, p)
    ensures Cong(w * TWO_64, 0, p)
  {
    CongSub(c1 + s, 0, c1, -1 * s - w * TWO_64, p);
    CongSub(s, s + w * TWO_64, s, s, p);
  }

  lemma LossNeverVanishes(w: nat, p: nat)
    requires 0 < w < p && p % 2 == 1
    ensures !Cong(w * TWO_64, 0, p)
  {
    if Cong(w * TWO_64, 0, p) {
      LossDivides(p, w);
      DividesBound(p, w);
    }
  }

  /** For two periods the one product (p-1)(p+1)/2 decides: up to 6074000999, beyond 2^32. */
  lemma TwoPeriods(p: nat)
    requires 2 < p < TWO_63 && p % 2 == 1
    ensures Interpolates(2, p) <==> (p - 1) * ((p + 1) / 2) < TWO_64
  {
    InverseOfTwo(p);
    var s := InverseOf(2, p).value;
    assert s == (p + 1) / 2;
    TwoPeriodCoefficients(p, s);
    var c1, w := ModMul(p - 1, s, p), Lost(p - 1, s);
    CongFromMultiple(p - 1, -1, 1, p);
    LossyProduct(p - 1, -1, s, p);
    if w == 0 {
      TwoPeriodsExact(p, s, c1);
    } else {
      LostIsSmall(p - 1, s, p);
      LossNeverVanishes(w, p);
      if IsIndicatorPolynomial([0, c1, s], 2, p) {
        QuadraticIndicator(c1, s, p);
        LossVanishes(c1, s, w, p);
      }
    }
  }

  lemma TwoPeriodsExact(p: nat, s: nat, c1: nat)
    requires 2 < p && 2 * s == p + 1 && c1 < p && s < p && Cong(c1, 0 - s, p)
    ensures IsIndicatorPolynomial([0, c1, s], 2, p)
  {
    var c: seq<nat> := [0, c1, s];
    SmallMod(0, p);
    SmallMod(1, p);
    CongAdd(c1, 0 - s, s, s, p);
    CongMul(c1, 0 - s, 2, 2, p);
    CongAdd(c1 * 2, (0 - s) * 2, 4 * s, 4 * s, p);
    CongFromMultiple(2 * s, 1, 1, p);
    forall x | 0 <= x <= 2 ensures Eval(c, x) % p == Indicator(2, x) {
      EvalQuadratic(c1, s, x);
    }
  }

  // ------------------------------------------------------------- three periods

  lemma EvalCubic(a: int, b: int, c: int, x: int)
    ensures Eval([0, a, b, c], x) == x * (a + x * (b + x * c))
  {
    assert [0, a, b, c][1..] == [a, b, c] && [a, b, c][1..] == [b, c] && [b, c][1..] == [c] && [c][1..] == [];
    assert Eval([c], x) == c;
    assert Eval([b, c], x) == b + x * c;
    assert Eval([a, b, c], x) == a + x * (b + x * c);
  }

  lemma ValuesCubic(a: nat, b: nat, c: nat, p: nat)
    requires p > 1 && IsIndicatorPolynomial([0, a, b, c], 3, p)
    ensures Cong(a + b + c, 0, p) && Cong(2 * a + 4 * b + 8 * c, 1, p) && Cong(3 * a + 9 * b + 27 * c, 1, p)
  {
    var f: seq<nat> := [0, a, b, c];
    EvalCubic(a, b, c, 1);
    EvalCubic(a, b, c, 2);
    EvalCubic(a, b, c, 3);
    SmallMod(0, p);
    SmallMod(1, p);
    assert Eval(f, 1) % p == 0 && Eval(f, 2) % p == 1 && Eval(f, 3) % p == 1;
  }

  /** The coefficients that four prescribed values leave, without dividing. */
  lemma CubicIndicator(a: nat, b: nat, c: nat, p: nat)
    requires p > 1 && IsIndicatorPolynomial([0, a, b, c], 3, p)
    ensures Cong(6 * b, 9, p) && Cong(6 * a, -7, p)
  {
    ValuesCubic(a, b, c, p);
    var k1 := CongQuotient(a + b + c, 0, p);
    var k2 := CongQuotient(2 * a + 4 * b + 8 * c, 1, p);
    var k3 := CongQuotient(3 * a + 9 * b + 27 * c, 1, p);
    var m1, m2, m3 := k1 * p, k2 * p, k3 * p;
    assert 6 * b == 9 + (12 * m2 - 15 * m1 - 3 * m3);
    assert 6 * a == -7 + (18 * m1 - 9 * m2 + 2 * m3);
    assert (12 * k2 - 15 * k1 - 3 * k3) * p == 12 * m2 - 15 * m1 - 3 * m3;
    assert (18 * k1 - 9 * k2 + 2 * k3) * p == 18 * m1 - 9 * m2 + 2 * m3;
    CongFromMultiple(6 * b, 9, 12 * k2 - 15 * k1 - 3 * k3, p);
    CongFromMultiple(6 * a, -7, 18 * k1 - 9 * k2 + 2 * k3, p);
  }

  /** A product with the inverse of -2, times 6. */
  lemma TimesInverseOfMinusTwo(u: int, r: int, s: int, w: int, p: int)
    requires p > 0 && Cong(u, r * s - w * TWO_64, p) && Cong(-2 * s, 1, p)
    ensures Cong(6 * u, -3 * r - 6 * w * TWO_64, p)
  {
    CongMul(u, r * s - w * TWO_64, 6, 6, p);
    CongMul(-2 * s, 1, -3 * r, -3 * r, p);
    assert -2 * s * (-3 * r) == 6 * (r * s);
    CongSub(-2 * s * (-3 * r), -3 * r, 6 * w * TWO_64, 6 * w * TWO_64, p);
  }

  /** A product with the inverse of 6, times 6. */
  lemma TimesInverseOfSix(u: int, r: int, s: int, w: int, p: int)
    requires p > 0 && Cong(u, r * s - w * TWO_64, p) && Cong(6 * s, 1, p)
    ensures Cong(6 * u, r - 6 * w * TWO_64, p)
  {
    CongMul(u, r * s - w * TWO_64, 6, 6, p);
    CongMul(6 * s, 1, r, r, p);
    assert 6 * s * r == 6 * (r * s);
    CongSub(6 * s * r, r, 6 * w * TWO_64, 6 * w * TWO_64, p);
  }

  lemma SumTimesSix(c: int, u: int, x: int, v: int, y: int, p: int)
    requires p > 0 && Cong(c, u + v, p) && Cong(6 * u, x, p) && Cong(6 * v, y, p)
    ensures Cong(6 * c, x + y, p)
  {
    CongMul(c, u + v, 6, 6, p);
    CongAdd(6 * u, x, 6 * v, y, p);
  }

  /** The basis polynomials and denominators of the nodes 2 and 3. */
  lemma ThreePeriodNodes(p: nat)
    requires 6 < p < TWO_63
    ensures BasisOf(2, 4, p) == [0, ModMul(p - 1, p - 3, p), p - 4, 1]
    ensures BasisOf(3, 4, p) == [0, ModMul(p - 1, p - 2, p), p - 3, 1]
    ensures DenominatorOf(2, 4, p) == p - 2 && DenominatorOf(3, 4, p) == 6
  {
    FirstTwoNodes(2, p);
    FirstTwoNodes(3, p);
    assert BasisOf(2, 3, p) == [0, p - 1, 1];
    ThirdNode(p - 1, 3, p);
    ThirdNode(p - 1, 2, p);
    ExactSum(p - 1, p - 3, p);
    ExactSum(p - 1, p - 2, p);
    assert BasisOf(3, 3, p) == [0, ModMul(p - 1, p - 2, p), p - 3, 1];
    DenominatorOfTwo(p);
    DenominatorOfThree(p);
  }

  lemma DenominatorOfTwo(p: nat)
    requires 6 < p < TWO_63
    ensures DenominatorOf(2, 4, p) == p - 2
  {
    assert DenominatorOf(2, 0, p) == 1;
    DenominatorFactor(2, 0, 1, p);
    SmallMod(2, p);
    DenominatorFactor(2, 1, 2, p);
    assert DenominatorOf(2, 3, p) == 2;
    DenominatorFactor(2, 3, 2, p);
    DivModUnique(2 * (p - 1), 1, p - 2, p);
  }

  lemma DenominatorOfThree(p: nat)
    requires 6 < p < TWO_63
    ensures DenominatorOf(3, 3, p) == 6 && DenominatorOf(3, 4, p) == 6
  {
    assert DenominatorOf(3, 0, p) == 1;
    DenominatorFactor(3, 0, 1, p);
    SmallMod(3, p);
    DenominatorFactor(3, 1, 3, p);
    SmallMod(6, p);
    DenominatorFactor(3, 2, 6, p);
  }

  lemma FromZeros4(a: nat, b: nat, s: nat, p: nat)
    requires 1 < p < TWO_63 && s < p
    ensures AddScaledOf([0, 0, 0, 0], [0, a, b, 1], s, p) == [0, ModMul(a, s, p), ModMul(b, s, p), s]
  {
    ExactProduct(0, s, p);
    ExactProduct(1, s, p);
    SmallMod(0, p);
    SmallMod(s, p);
    ExactSum(0, 0, p);
    ExactSum(0, ModMul(a, s, p), p);
    ExactSum(0, ModMul(b, s, p), p);
    ExactSum(0, s, p);
  }

  /** The result for three periods, once both inverses exist. */
  lemma ThreePeriodCoefficients(p: nat, s: nat, r: nat) returns (a: nat, b: nat, c: nat)
    requires 6 < p < TWO_63 && InverseOf(p - 2, p) == Some(s) && InverseOf(6, p) == Some(r) && s < p && r < p
    ensures CoefficientsOf(3, 4, p) == Some([0, a, b, c])
    ensures Cong(a, ModMul(ModMul(p - 1, p - 3, p), s, p) + ModMul(ModMul(p - 1, p - 2, p), r, p), p)
    ensures Cong(b, ModMul(p - 4, s, p) + ModMul(p - 3, r, p), p)
  {
    ThreePeriodNodes(p);
    var e, f := ModMul(p - 1, p - 3, p), ModMul(p - 1, p - 2, p);
    var zeros: seq<nat> := seq(3 + 1, _ => 0);
    assert zeros == [0, 0, 0, 0] && CoefficientsOf(3, 0, p) == Some(zeros);
    assert CoefficientsOf(3, 1, p) == Some(zeros) && CoefficientsOf(3, 2, p) == Some(zeros);
    FromZeros4(e, p - 4, s, p);
    var first: seq<nat> := [0, ModMul(e, s, p), ModMul(p - 4, s, p), s];
    assert CoefficientsOf(3, 3, p) == Some(first);
    a, b := ModAdd(first[1], ModMul(f, r, p), p), ModAdd(first[2], ModMul(p - 3, r, p), p);
    c := ModAdd(s, ModMul(1, r, p), p);
    ExactSum(first[1], ModMul(f, r, p), p);
    ExactSum(first[2], ModMul(p - 3, r, p), p);
    ExactProduct(0, r, p);
    SmallMod(0, p);
    ExactSum(0, 0, p);
    assert AddScaledOf(first, [0, f, p - 3, 1], r, p) == [0, a, b, c];
  }

  /** The part of node 2: the basis product and its scaling each lose a multiple of 2^64. */
  lemma LinearPartOfTwo(p: nat, s: nat)
    requires 6 < p < TWO_63 && s < p && Cong(-2 * s, 1, p)
    ensures var e := ModMul(p - 1, p - 3, p);
      Cong(6 * ModMul(e, s, p), -3 * (3 - Lost(p - 1, p - 3) * TWO_64) - 6 * Lost(e, s) * TWO_64, p)
  {
    var e, w := ModMul(p - 1, p - 3, p), Lost(p - 1, p - 3);
    CongFromMultiple(p - 1, -1, 1, p);
    LossyProduct(p - 1, -1, p - 3, p);
    CongFromMultiple(-1 * (p - 3) - w * TWO_64, 3 - w * TWO_64, -1, p);
    LossyProduct(e, 3 - w * TWO_64, s, p);
    TimesInverseOfMinusTwo(ModMul(e, s, p), 3 - w * TWO_64, s, Lost(e, s), p);
  }

  /** The part of node 3. */
  lemma LinearPartOfThree(p: nat, r: nat)
    requires 6 < p < TWO_63 && r < p && Cong(6 * r, 1, p)
    ensures var f := ModMul(p - 1, p - 2, p);
      Cong(6 * ModMul(f, r, p), 2 - Lost(p - 1, p - 2) * TWO_64 - 6 * Lost(f, r) * TWO_64, p)
  {
    var f, v := ModMul(p - 1, p - 2, p), Lost(p - 1, p - 2);
    CongFromMultiple(p - 1, -1, 1, p);
    LossyProduct(p - 1, -1, p - 2, p);
    CongFromMultiple(-1 * (p - 2) - v * TWO_64, 2 - v * TWO_64, -1, p);
    LossyProduct(f, 2 - v * TWO_64, r, p);
    TimesInverseOfSix(ModMul(f, r, p), 2 - v * TWO_64, r, Lost(f, r), p);
  }

  /** Six times the linear coefficient, with the four products that lose multiples of 2^64. */
  lemma LinearCoefficient(p: nat, s: nat, r: nat, a: nat)
    requires 6 < p < TWO_63 && s < p && r < p && Cong(-2 * s, 1, p) && Cong(6 * r, 1, p)
    requires Cong(a, ModMul(ModMul(p - 1, p - 3, p), s, p) + ModMul(ModMul(p - 1, p - 2, p), r, p), p)
    ensures var e, f := ModMul(p - 1, p - 3, p), ModMul(p - 1, p - 2, p);
      Cong(6 * a, -7 + (3 * Lost(p - 1, p - 3) - Lost(p - 1, p - 2) - 6 * (Lost(e, s) + Lost(f, r))) * TWO_64, p)
  {
    var e, f := ModMul(p - 1, p - 3, p), ModMul(p - 1, p - 2, p);
    var w, v := Lost(p - 1, p - 3), Lost(p - 1, p - 2);
    LinearPartOfTwo(p, s);
    LinearPartOfThree(p, r);
    SumTimesSix(a, ModMul(e, s, p), -3 * (3 - w * TWO_64) - 6 * Lost(e, s) * TWO_64,
                ModMul(f, r, p), 2 - v * TWO_64 - 6 * Lost(f, r) * TWO_64, p);
  }

  lemma SquareCoefficient(p: nat, s: nat, r: nat, b: nat)
    requires 6 < p < TWO_63 && s < p && r < p && Cong(-2 * s, 1, p) && Cong(6 * r, 1, p)
    requires Cong(b, ModMul(p - 4, s, p) + ModMul(p - 3, r, p), p)
    ensures Cong(6 * b, 9 - 6 * (Lost(p - 4, s) + Lost(p - 3, r)) * TWO_64, p)
  {
    CongFromMultiple(p - 4, -4, 1, p);
    CongFromMultiple(p - 3, -3, 1, p);
    LossyProduct(p - 4, -4, s, p);
    LossyProduct(p - 3, -3, r, p);
    TimesInverseOfMinusTwo(ModMul(p - 4, s, p), -4, s, Lost(p - 4, s), p);
    TimesInverseOfSix(ModMul(p - 3, r, p), -3, r, Lost(p - 3, r), p);
    SumTimesSix(b, ModMul(p - 4, s, p), 12 - 6 * Lost(p - 4, s) * TWO_64,
                ModMul(p - 3, r, p), -3 - 6 * Lost(p - 3, r) * TWO_64, p);
  }

  /** A multiple of 2^64 that vanishes modulo p makes its multiplier vanish. */
  lemma LossMustVanish(u: int, base: int, n: int, p: int)
    requires p > 0 && p % 2 == 1 && Cong(u, base + n * TWO_64, p) && Cong(u, base, p)
    ensures Divides(p, n)
  {
    CongSub(base + n * TWO_64, base, base, base, p);
    LossDivides(p, n);
  }

  /** If the square coefficient is right, neither of its products lost anything. */
  lemma SquareIsExact(p: nat, s: nat, r: nat, b: nat)
    requires 6 < p < TWO_63 && p % 2 == 1 && p % 3 != 0 && s < p && r < p && Cong(-2 * s, 1, p) && Cong(6 * r, 1, p)
    requires Cong(b, ModMul(p - 4, s, p) + ModMul(p - 3, r, p), p) && Cong(6 * b, 9, p)
    ensures Lost(p - 4, s) == 0
  {
    var n := Lost(p - 4, s) + Lost(p - 3, r);
    SquareCoefficient(p, s, r, b);
    LossMustVanish(6 * b, 9, -6 * n, p);
    DividesLinear(p, -6 * n, -1, p, 0);
    assert -6 * n * -1 + p * 0 == 2 * (3 * n);
    HalfDivides(p, 3 * n);
    CoprimeDivides(p, 3, n);
    LostIsSmall(p - 4, s, p);
    LostIsSmall(p - 3, r, p);
    SmallMultipleIsZero(p, n);
  }

  /** The multiplier of the linear coefficient's error is small and never zero. */
  lemma ErrorMultiplier(w: int, v: int, x: int, y: int)
    requires 1 <= w <= 2 && w <= v <= w + 1 && 0 <= x < 3 && 0 <= y < 3
    ensures var n := 3 * w - v - 6 * (x + y); n != 0 && -40 < n < 40
  {
  }

  lemma SquareBound(p: nat, s: nat)
    requires 4 < p < TWO_63 && 2 * s + 1 == p && Lost(p - 4, s) == 0
    ensures p * p < 2 * TWO_64 + 5 * p
  {
    assert (p - 4) * s < TWO_64;
    assert 2 * ((p - 4) * s) == (p - 4) * (p - 1);
    assert (p - 4) * (p - 1) == p * p - 5 * p + 4;
  }

  lemma LostInBasis(p: nat)
    requires TWO_32 + 2 < p && p * p < 2 * TWO_64 + 5 * p
    ensures 1 <= Lost(p - 1, p - 3) <= 2
    ensures Lost(p - 1, p - 3) <= Lost(p - 1, p - 2) <= Lost(p - 1, p - 3) + 1
  {
    BelowTwo33(p);
    var low, high := (p - 1) * (p - 3), (p - 1) * (p - 2);
    assert low == p * p - 4 * p + 3 && high == low + (p - 1);
    MulMonotone(TWO_32 + 2, p - 1, TWO_32, p - 3);
  }

  lemma BelowTwo33(p: nat)
    requires p * p < 2 * TWO_64 + 5 * p
    ensures p < 2 * TWO_32
  {
    assert p * (p - 5) == p * p - 5 * p;
    if p >= 2 * TWO_32 {
      MulMonotone(2 * TWO_32, p, 2 * TWO_32 - 5, p - 5);
    }
  }

  lemma LostInSquare(x: nat, y: nat, p: nat)
    requires x < p && y < p && p * p < 2 * TWO_64 + 5 * p
    ensures Lost(x, y) < 3
  {
    BelowTwo33(p);
    MulMonotone(x, p, y, p);
    LostBelow(x, y, 3);
  }

  lemma ThreePeriodBounds(p: nat, s: nat, r: nat)
    requires TWO_32 + 2 < p < TWO_63 && s < p && r < p && 2 * s + 1 == p && Lost(p - 4, s) == 0
    ensures var e, f := ModMul(p - 1, p - 3, p), ModMul(p - 1, p - 2, p);
      var n := 3 * Lost(p - 1, p - 3) - Lost(p - 1, p - 2) - 6 * (Lost(e, s) + Lost(f, r));
      n != 0 && -40 < n < 40
  {
    var e, f := ModMul(p - 1, p - 3, p), ModMul(p - 1, p - 2, p);
    SquareBound(p, s);
    LostInBasis(p);
    LostInSquare(e, s, p);
    LostInSquare(f, r, p);
    ErrorMultiplier(Lost(p - 1, p - 3), Lost(p - 1, p - 2), Lost(e, s), Lost(f, r));
  }

  /** Three periods: above 2^32 the result is wrong for every modulus prime to 6. */
  lemma ThreePeriodsFail(p: nat)
    requires TWO_32 + 2 < p < TWO_63 && p % 2 == 1 && p % 3 != 0
    ensures !Interpolates(3, p)
  {
    if Interpolates(3, p) {
      ThreePeriodNodes(p);
      InverseBelow63Bits(p - 2, p);
      InverseBelow63Bits(6, p);
      assert CoefficientsOf(3, 3, p).Some?;
      var s, r := InverseOf(p - 2, p).value, InverseOf(6, p).value;
      InversesOfDenominators(p, s, r);
      var a, b, c := ThreePeriodCoefficients(p, s, r);
      CubicIndicator(a, b, c, p);
      SquareIsExact(p, s, r, b);
      LinearCoefficient(p, s, r, a);
      ThreePeriodBounds(p, s, r);
      var n := 3 * Lost(p - 1, p - 3) - Lost(p - 1, p - 2)
        - 6 * (Lost(ModMul(p - 1, p - 3, p), s) + Lost(ModMul(p - 1, p - 2, p), r));
      LossMustVanish(6 * a, -7, n, p);
      SmallMultipleIsZero(p, n);
      assert false;
    }
  }

  lemma InversesOfDenominators(p: nat, s: nat, r: nat)
    requires 6 < p && s < p && ((p - 2) * s) % p == 1 && (6 * r) % p == 1
    ensures Cong(-2 * s, 1, p) && Cong(6 * r, 1, p) && 2 * s + 1 == p
  {
    SmallMod(1, p);
    CongFromMultiple((p - 2) * s, -2 * s, s, p);
    var k := CongQuotient(-2 * s, 1, p);
    assert k == -1 by {
      assert k >= 0 ==> k * p >= 0;
      assert k <= -2 ==> k * p <= -2 * p;
    }
  }

  /** Three periods: a prime modulus below 2^63 gives the indicator if and only if it is at most 2^32. */
  lemma ThreePeriods(p: nat)
    requires IsPrime(p) && 3 < p < TWO_63
    ensures Interpolates(3, p) <==> p <= TWO_32
  {
    ExactInterpolates(3, p);
    if p > TWO_32 {
      PrimeAbove32Bits(p);
      ThreePeriodsFail(p);
    }
  }

  /**
   * A prime modulus below 2^63 gives the indicator for every number of periods below it
   * if and only if it is at most 2^32.
   */
  lemma AllPeriods(p: nat)
    requires IsPrime(p) && 3 < p < TWO_63
    ensures (forall T: nat :: T < p ==> Interpolates(T, p)) <==> p <= TWO_32
  {
    if p <= TWO_32 {
      forall T: nat | T < p ensures Interpolates(T, p) {
        ExactInterpolates(T, p);
      }
    } else {
      ThreePeriods(p);
    }
  }

  lemma PrimeAbove32Bits(p: nat)
    requires IsPrime(p) && p > TWO_32
    ensures p % 2 == 1 && p % 3 != 0 && p % 5 != 0 && p > TWO_32 + 4
  {
    assert !Divides(2, p) && !Divides(3, p) && !Divides(5, p) && !Divides(7, p) && !Divides(641, p);
    assert TWO_32 + 1 == 641 * 6700417;
    assert (TWO_32 + 2) % 2 == 0 && (TWO_32 + 3) % 7 == 0 && (TWO_32 + 4) % 2 == 0;
  }

  // -------------------------------------------------------------- five periods

  lemma EvalDegreeFive(c: seq<int>, x: int)
    requires |c| == 6
    ensures Eval(c, x) == c[0] + x * (c[1] + x * (c[2] + x * (c[3] + x * (c[4] + x * c[5]))))
  {
    assert c[1..][1..] == c[2..] && c[2..][1..] == c[3..] && c[3..][1..] == c[4..] && c[4..][1..] == c[5..];
    assert c[5..][1..] == [];
    assert Eval(c[5..], x) == c[5];
    assert Eval(c[4..], x) == c[4] + x * c[5];
    assert Eval(c[3..], x) == c[3] + x * (c[4] + x * c[5]);
    assert Eval(c[2..], x) == c[2] + x * (c[3] + x * (c[4] + x * c[5]));
    assert Eval(c[1..], x) == c[1] + x * (c[2] + x * (c[3] + x * (c[4] + x * c[5])));
  }

  lemma FifthDifference(c: seq<int>)
    requires |c| == 6
    ensures Eval(c, 5) - 5 * Eval(c, 4) + 10 * Eval(c, 3) - 10 * Eval(c, 2) + 5 * Eval(c, 1) - Eval(c, 0) == 120 * c[5]
  {
    EvalDegreeFive(c, 0);
    EvalDegreeFive(c, 1);
    EvalDegreeFive(c, 2);
    EvalDegreeFive(c, 3);
    EvalDegreeFive(c, 4);
    EvalDegreeFive(c, 5);
  }

  /** The fifth difference of values that are 0 or 1 up to multiples of p. */
  lemma DifferenceOfMultiples(k0: int, k1: int, k2: int, k3: int, k4: int, k5: int, p: int)
    requires p > 0
    ensures var d := (1 + k5 * p) - 5 * (1 + k4 * p) + 10 * (1 + k3 * p) - 10 * (k2 * p) + 5 * (k1 * p) - k0 * p;
      Cong(d, 6, p)
  {
    var d := (1 + k5 * p) - 5 * (1 + k4 * p) + 10 * (1 + k3 * p) - 10 * (k2 * p) + 5 * (k1 * p) - k0 * p;
    Distribute(p, k5 - 5 * k4, 10 * k3 - 10 * k2 + 5 * k1 - k0);
    Distribute(p, k5, -5 * k4);
    Distribute(p, 10 * k3 - 10 * k2, 5 * k1 - k0);
    Distribute(p, 10 * k3, -10 * k2);
    Distribute(p, 5 * k1, -k0);
    CongFromMultiple(d, 6, k5 - 5 * k4 + (10 * k3 - 10 * k2 + 5 * k1 - k0), p);
  }

  /** The leading coefficient that six prescribed values leave. */
  lemma QuinticIndicator(c: seq<nat>, p: nat)
    requires p > 1 && IsIndicatorPolynomial(c, 5, p)
    ensures Cong(120 * c[5], 6, p)
  {
    FifthDifference(c);
    SmallMod(0, p);
    SmallMod(1, p);
    var k0 := CongQuotient(Eval(c, 0), 0, p);
    var k1 := CongQuotient(Eval(c, 1), 0, p);
    var k2 := CongQuotient(Eval(c, 2), 0, p);
    var k3 := CongQuotient(Eval(c, 3), 1, p);
    var k4 := CongQuotient(Eval(c, 4), 1, p);
    var k5 := CongQuotient(Eval(c, 5), 1, p);
    DifferenceOfMultiples(k0, k1, k2, k3, k4, k5, p);
  }

  /** The denominators of the nodes 3, 4 and 5; only the first has two negative factors. */
  lemma FivePeriodDenominators(p: nat)
    requires 120 < p < TWO_63 && 24 * p <= TWO_64
    ensures DenominatorOf(3, 6, p) == ModMul(p - 6, p - 2, p)
    ensures DenominatorOf(4, 6, p) == p - 24 && DenominatorOf(5, 6, p) == 120
  {
    DenominatorOfThree(p);
    DenominatorFactor(3, 4, 6, p);
    DivModUnique(6 * (p - 1), 5, p - 6, p);
    DenominatorFactor(3, 5, p - 6, p);
    FourthDenominator(p);
    FifthDenominator(p);
  }

  lemma FourthDenominator(p: nat)
    requires 120 < p < TWO_63 && 24 * p <= TWO_64
    ensures DenominatorOf(4, 6, p) == p - 24
  {
    assert DenominatorOf(4, 0, p) == 1;
    DenominatorFactor(4, 0, 1, p);
    SmallMod(4, p);
    DenominatorFactor(4, 1, 4, p);
    SmallMod(12, p);
    DenominatorFactor(4, 2, 12, p);
    SmallMod(24, p);
    DenominatorFactor(4, 3, 24, p);
    assert DenominatorOf(4, 5, p) == 24;
    DenominatorFactor(4, 5, 24, p);
    DivModUnique(24 * (p - 1), 23, p - 24, p);
  }

  lemma FifthDenominator(p: nat)
    requires 120 < p < TWO_63
    ensures DenominatorOf(5, 6, p) == 120
  {
    assert DenominatorOf(5, 0, p) == 1;
    DenominatorFactor(5, 0, 1, p);
    SmallMod(5, p);
    DenominatorFactor(5, 1, 5, p);
    SmallMod(20, p);
    DenominatorFactor(5, 2, 20, p);
    SmallMod(60, p);
    DenominatorFactor(5, 3, 60, p);
    SmallMod(120, p);
    DenominatorFactor(5, 4, 120, p);
  }

  lemma AddLeading(c: seq<nat>, i: nat, s: nat, p: nat)
    requires 1 < p < TWO_63 && |c| == 6 && c[5] < p && s < p && 3 <= i <= 5
    ensures |BasisOf(i, 6, p)| == 6
    ensures var next := AddScaledOf(c, BasisOf(i, 6, p), s, p); next[5] < p && Cong(next[5], c[5] + s, p)
  {
    LeadingIsOne(i, 6, p);
    ExactProduct(1, s, p);
    SmallMod(s, p);
    ExactSum(c[5], s, p);
  }

  /** The leading coefficient is the sum of the three inverses. */
  lemma FivePeriodLeading(p: nat, s: nat, r: nat, u: nat) returns (c: seq<nat>)
    requires 120 < p < TWO_63 && s < p && r < p && u < p
    requires InverseOf(DenominatorOf(3, 6, p), p) == Some(s) && InverseOf(DenominatorOf(4, 6, p), p) == Some(r)
    requires InverseOf(DenominatorOf(5, 6, p), p) == Some(u)
    ensures CoefficientsOf(5, 6, p) == Some(c) && Cong(c[5], s + r + u, p)
  {
    var zeros: seq<nat> := seq(5 + 1, _ => 0);
    assert CoefficientsOf(5, 0, p) == Some(zeros);
    assert CoefficientsOf(5, 1, p) == CoefficientsOf(5, 2, p) == CoefficientsOf(5, 3, p) == Some(zeros);
    var x := AddScaledOf(zeros, BasisOf(3, 6, p), s, p);
    AddLeading(zeros, 3, s, p);
    var y := AddScaledOf(x, BasisOf(4, 6, p), r, p);
    AddLeading(x, 4, r, p);
    c := AddScaledOf(y, BasisOf(5, 6, p), u, p);
    AddLeading(y, 5, u, p);
    assert CoefficientsOf(5, 4, p) == Some(x) && CoefficientsOf(5, 5, p) == Some(y);
    CongAdd(x[5], s, r, r, p);
    CongAdd(y[5], s + r, u, u, p);
  }

  /** If the leading coefficient were right, the first denominator would be 12. */
  lemma LeadingForcesTwelve(lead: int, d: int, s: int, r: int, u: int, p: int)
    requires p > 1 && p % 2 == 1 && p % 5 != 0 && Cong(120 * lead, 6, p) && Cong(lead, s + r + u, p)
    requires Cong(d * s, 1, p) && Cong(-24 * r, 1, p) && Cong(120 * u, 1, p)
    ensures Cong(d, 12, p)
  {
    CongMul(lead, s + r + u, 120, 120, p);
    CongMul(-24 * r, 1, -5, -5, p);
    assert -24 * r * -5 == 120 * r;
    CongAdd(120 * r, -5, 120 * u, 1, p);
    CongSub(120 * (s + r + u), 6, 120 * r + 120 * u, -4, p);
    assert 120 * (s + r + u) - (120 * r + 120 * u) == 120 * s;
    CongMul(120 * s, 10, d, d, p);
    CongMul(d * s, 1, 120, 120, p);
    assert 120 * s * d == d * s * 120;
    DividesCong(10 * d, 120, p);
    assert 10 * d - 120 == 2 * (5 * (d - 12));
    HalfDivides(p, 5 * (d - 12));
    CoprimeDivides(p, 5, d - 12);
    DividesCong(d, 12, p);
  }

  lemma FivePeriodInverses(p: nat) returns (s: nat, r: nat, u: nat)
    requires 120 < p < TWO_63 && CoefficientsOf(5, 6, p).Some?
    ensures InverseOf(DenominatorOf(3, 6, p), p) == Some(s) && s < p && Cong(DenominatorOf(3, 6, p) * s, 1, p)
    ensures InverseOf(DenominatorOf(4, 6, p), p) == Some(r) && r < p && Cong(DenominatorOf(4, 6, p) * r, 1, p)
    ensures InverseOf(DenominatorOf(5, 6, p), p) == Some(u) && u < p && Cong(DenominatorOf(5, 6, p) * u, 1, p)
  {
    assert CoefficientsOf(5, 5, p).Some?;
    assert CoefficientsOf(5, 4, p).Some?;
    InverseBelow63Bits(DenominatorOf(3, 6, p), p);
    InverseBelow63Bits(DenominatorOf(4, 6, p), p);
    InverseBelow63Bits(DenominatorOf(5, 6, p), p);
    SmallMod(1, p);
    s, r := InverseOf(DenominatorOf(3, 6, p), p).value, InverseOf(DenominatorOf(4, 6, p), p).value;
    u := InverseOf(DenominatorOf(5, 6, p), p).value;
  }

  /** What a right result says of its leading coefficient and of the three inverses. */
  lemma FivePeriodFacts(p: nat) returns (lead: nat, s: nat, r: nat, u: nat)
    requires 120 < p < TWO_63 && Interpolates(5, p)
    ensures Cong(120 * lead, 6, p) && Cong(lead, s + r + u, p)
    ensures Cong(DenominatorOf(3, 6, p) * s, 1, p) && Cong(DenominatorOf(4, 6, p) * r, 1, p)
    ensures Cong(DenominatorOf(5, 6, p) * u, 1, p)
  {
    s, r, u := FivePeriodInverses(p);
    var c := FivePeriodLeading(p, s, r, u);
    QuinticIndicator(c, p);
    lead := c[5];
  }

  lemma LeadingIsWrong(p: nat, lead: int, d: nat, s: nat, r: nat, u: nat)
    requires TWO_32 + 4 < p < TWO_63 && p % 2 == 1 && p % 5 != 0 && d == ModMul(p - 6, p - 2, p)
    requires Cong(lead, s + r + u, p) && Cong(d * s, 1, p) && Cong((p - 24) * r, 1, p) && Cong(120 * u, 1, p)
    ensures !Cong(120 * lead, 6, p)
  {
    CongFromMultiple((p - 24) * r, -24 * r, r, p);
    if Cong(120 * lead, 6, p) {
      LeadingForcesTwelve(lead, d, s, r, u, p);
    }
    TwelveIsWrong(p);
  }

  /** Five periods: above 2^32 the result is wrong for every modulus prime to 10. */
  lemma FivePeriodsFail(p: nat)
    requires TWO_32 + 4 < p && 24 * p <= TWO_64 && p % 2 == 1 && p % 5 != 0
    ensures !Interpolates(5, p)
  {
    FivePeriodDenominators(p);
    if Interpolates(5, p) {
      var lead, s, r, u := FivePeriodFacts(p);
      LeadingIsWrong(p, lead, DenominatorOf(3, 6, p), s, r, u);
    }
  }

  lemma TwelveIsWrong(p: nat)
    requires TWO_32 + 4 < p < TWO_63 && p % 2 == 1
    ensures !Cong(ModMul(p - 6, p - 2, p), 12, p)
  {
    var d, w := ModMul(p - 6, p - 2, p), Lost(p - 6, p - 2);
    CongFromMultiple(p - 6, -6, 1, p);
    LossyProduct(p - 6, -6, p - 2, p);
    MulMonotone(TWO_32 - 1, p - 6, TWO_32 + 3, p - 2);
    LostIsSmall(p - 6, p - 2, p);
    LossNeverVanishes(w, p);
    if Cong(d, 12, p) {
      CongFromMultiple(-6 * (p - 2) - w * TWO_64, 12 - w * TWO_64, -6, p);
      CongSub(12, 12, 12, 12 - w * TWO_64, p);
    }
  }

  /** Five periods: a prime modulus up to 2^64/24 gives the indicator if and only if it is at most 2^32. */
  lemma FivePeriods(p: nat)
    requires IsPrime(p) && 5 < p && 24 * p <= TWO_64
    ensures Interpolates(5, p) <==> p <= TWO_32
  {
    ExactInterpolates(5, p);
    if p > TWO_32 {
      PrimeAbove32Bits(p);
      FivePeriodsFail(p);
    }
  }

  /** The first prime above 2^32, and the modulus of a run with 100000 voters of power up to 50000. */
  lemma ConcreteFailures()
    ensures !Interpolates(3, 4294967311) && !Interpolates(5, 4294967311)
    ensures !Interpolates(3, 5000200193) && !Interpolates(5, 5000200193)
  {
    ThreePeriodsFail(4294967311);
    FivePeriodsFail(4294967311);
    ThreePeriodsFail(5000200193);
    FivePeriodsFail(5000200193);
  }
}
