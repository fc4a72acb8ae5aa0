/**
 * Arithmetic modulo a positive integer, and the elementary number theory the
 * plaintext modulus rests on: greatest common divisors, Euclid's lemma and
 * Fermat's little theorem.
 */
module Modular {

  predicate Cong(a: int, b: int, m: int)
    requires m > 0
  {
    a % m == b % m
  }

  lemma DivModUnique(a: int, q: int, r: int, m: int)
    requires 0 <= r < m && a == q * m + r
    ensures a / m == q && a % m == r
  {
    var x := a / m - q;
    assert m * x == r - a % m;
    assert x >= 1 ==> m * x >= m;
    assert x <= -1 ==> m * x <= -m;
  }

  lemma CongFromMultiple(a: int, b: int, k: int, m: int)
    requires m > 0 && a == b + k * m
    ensures Cong(a, b, m)
  {
    assert a == (b / m + k) * m + b % m;
    DivModUnique(a, b / m + k, b % m, m);
  }

  lemma CongQuotient(a: int, b: int, m: int) returns (k: int)
    requires m > 0 && Cong(a, b, m)
    ensures a == b + k * m
  {
    k := a / m - b / m;
    assert a == (a / m) * m + a % m && b == (b / m) * m + b % m;
  }

  lemma CongMod(a: int, m: int)
    requires m > 0
    ensures Cong(a % m, a, m)
  {
    CongFromMultiple(a % m, a, -(a / m), m);
  }

  lemma SmallMod(a: int, m: int)
    requires 0 <= a < m
    ensures a % m == a
  {
    DivModUnique(a, 0, a, m);
  }

  lemma CongAdd(a: int, b: int, c: int, d: int, m: int)
    requires m > 0 && Cong(a, b, m) && Cong(c, d, m)
    ensures Cong(a + c, b + d, m)
  {
    var j := CongQuotient(a, b, m);
    var k := CongQuotient(c, d, m);
    CongFromMultiple(a + c, b + d, j + k, m);
  }

  lemma ExpandProduct(b: int, j: int, d: int, k: int, m: int)
    ensures (b + j * m) * (d + k * m) == b * d + (b * k + j * d + j * k * m) * m
  {
    Distribute(b + j * m, d, k * m);
    Distribute(d, b, j * m);
    Distribute(k * m, b, j * m);
    Distribute(m, b * k + j * d, j * k * m);
    Distribute(m, b * k, j * d);
  }

  lemma CongMul(a: int, b: int, c: int, d: int, m: int)
    requires m > 0 && Cong(a, b, m) && Cong(c, d, m)
    ensures Cong(a * c, b * d, m)
  {
    var j := CongQuotient(a, b, m);
    var k := CongQuotient(c, d, m);
    ExpandProduct(b, j, d, k, m);
    CongFromMultiple(a * c, b * d, b * k + j * d + j * k * m, m);
  }

  lemma CongSub(a: int, b: int, c: int, d: int, m: int)
    requires m > 0 && Cong(a, b, m) && Cong(c, d, m)
    ensures Cong(a - c, b - d, m)
  {
    var j := CongQuotient(a, b, m);
    var k := CongQuotient(c, d, m);
    CongFromMultiple(a - c, b - d, j - k, m);
  }

  lemma MulMonotone(a: nat, b: nat, c: nat, d: nat)
    requires a <= b && c <= d
    ensures a * c <= b * d
  {
    assert b * d == a * c + a * (d - c) + (b - a) * d;
  }

  lemma Distribute(a: int, b: int, c: int)
    ensures a * (b + c) == a * b + a * c && (b + c) * a == b * a + c * a
  {
  }

  // The two forms in which reduced operands meet an evaluator call.
  lemma ModAddMod(a: int, b: int, m: int)
    requires m > 0
    ensures (a % m + b % m) % m == (a + b) % m
    ensures (a % m + b) % m == (a + b) % m
  {
    CongMod(a, m);
    CongMod(b, m);
    CongAdd(a % m, a, b % m, b, m);
    CongAdd(a % m, a, b, b, m);
  }

  lemma ModMulMod(a: int, b: int, m: int)
    requires m > 0
    ensures ((a % m) * (b % m)) % m == (a * b) % m
    ensures ((a % m) * b) % m == (a * b) % m
    ensures (a * (b % m)) % m == (a * b) % m
  {
    CongMod(a, m);
    CongMod(b, m);
    CongMul(a % m, a, b % m, b, m);
    CongMul(a % m, a, b, b, m);
    CongMul(a, a, b % m, b, m);
  }

  // ---------------------------------------------------------------- divisors

  predicate Divides(d: int, a: int) {
    d > 0 && a % d == 0
  }

  lemma DividesMultiple(d: int, k: int)
    requires d > 0
    ensures Divides(d, k * d) && Divides(d, d * k)
  {
    DivModUnique(k * d, k, 0, d);
  }

  lemma DividesQuotient(d: int, a: int) returns (k: int)
    requires Divides(d, a)
    ensures a == k * d
  {
    k := a / d;
  }

  lemma FactorOut(j: int, x: int, k: int, y: int, d: int)
    ensures (j * d) * x + (k * d) * y == (j * x + k * y) * d
  {
    Distribute(d, j * x, k * y);
    assert (j * d) * x == (j * x) * d && (k * d) * y == (k * y) * d;
  }

  lemma DividesLinear(d: int, a: int, x: int, b: int, y: int)
    requires Divides(d, a) && Divides(d, b)
    ensures Divides(d, a * x + b * y)
  {
    var j := DividesQuotient(d, a);
    var k := DividesQuotient(d, b);
    FactorOut(j, x, k, y, d);
    DividesMultiple(d, j * x + k * y);
  }

  lemma DividesBound(d: int, a: int)
    requires Divides(d, a) && a > 0
    ensures d <= a
  {
    var k := DividesQuotient(d, a);
    assert k <= 0 ==> k * d <= 0;
    assert k >= 1 ==> k * d >= d;
  }

  lemma DividesCong(a: int, b: int, m: int)
    requires m > 0
    ensures Divides(m, a - b) <==> Cong(a, b, m)
  {
    if Divides(m, a - b) {
      var k := DividesQuotient(m, a - b);
      CongFromMultiple(a, b, k, m);
    }
    if Cong(a, b, m) {
      var k := CongQuotient(a, b, m);
      DividesMultiple(m, k);
    }
  }

  /** Euclid's recursion; by GcdDivides and GcdIsGreatest it is the greatest common divisor. */
  function Gcd(a: nat, b: nat): nat
    decreases b
  {
    if b == 0 then a else Gcd(b, a % b)
  }

  lemma {:induction false} GcdDivides(a: nat, b: nat)
    requires a > 0 || b > 0
    ensures Divides(Gcd(a, b), a) && Divides(Gcd(a, b), b)
    decreases b
  {
    if b == 0 {
      DividesMultiple(a, 1);
      DividesMultiple(a, 0);
    } else {
      GcdDivides(b, a % b);
      DividesLinear(Gcd(a, b), b, a / b, a % b, 1);
      assert a == b * (a / b) + (a % b) * 1;
    }
  }

  /** The coefficients with which Gcd(a, b) is a combination of a and b. */
  function BezoutPair(a: nat, b: nat): (int, int)
    decreases b
  {
    if b == 0 then (1, 0)
    else var (x, y) := BezoutPair(b, a % b); (y, x - (a / b) * y)
  }

  lemma {:induction false} Bezout(a: nat, b: nat) returns (x: int, y: int)
    ensures (x, y) == BezoutPair(a, b) && a * x + b * y == Gcd(a, b)
    decreases b
  {
    if b == 0 {
      x, y := 1, 0;
    } else {
      var u, v := Bezout(b, a % b);
      x, y := v, u - (a / b) * v;
      BezoutStep(a, b, u, v);
    }
  }

  lemma BezoutStep(a: nat, b: nat, u: int, v: int)
    requires b > 0
    ensures a * v + b * (u - (a / b) * v) == b * u + (a % b) * v
  {
    var q, r := a / b, a % b;
    assert a == b * q + r;
    Distribute(v, b * q, r);
    Distribute(b, u, -(q * v));
    assert (b * q) * v == b * (q * v);
  }

  lemma GcdIsGreatest(a: nat, b: nat, d: int)
    requires Divides(d, a) && Divides(d, b)
    ensures Divides(d, Gcd(a, b))
  {
    var x, y := Bezout(a, b);
    DividesLinear(d, a, x, b, y);
  }

  /** A product with a number is 1 modulo m for some number exactly when the gcd is 1. */
  lemma InvertibleIffCoprime(a: nat, x: int, m: nat)
    requires m > 1 && Cong(a * x, 1, m)
    ensures Gcd(a, m) == 1
  {
    GcdDivides(a, m);
    var g := Gcd(a, m);
    var k := CongQuotient(a * x, 1, m);
    DividesLinear(g, a, x, m, -k);
    assert a * x + m * -k == 1;
    DividesBound(g, 1);
  }

  // ------------------------------------------------------------------ primes

  ghost predicate IsPrime(p: int) {
    p >= 2 && forall d :: 2 <= d < p ==> !Divides(d, p)
  }

  lemma PrimeCoprime(p: nat, a: nat)
    requires IsPrime(p) && !Divides(p, a)
    ensures Gcd(a, p) == 1
  {
    GcdDivides(a, p);
    DividesBound(Gcd(a, p), p);
  }

  lemma ScaledBezout(a: int, b: int, p: int, q: int, r: int, x: int, y: int)
    requires a == q * p + r && r * x + p * y == 1
    ensures b == (a * b) * x + p * (b * y - q * b * x)
  {
    assert r == a - q * p;
    assert b * (r * x + p * y) == b;
    Distribute(b, r * x, p * y);
    Distribute(x, a, -(q * p));
    assert r * x == a * x - (q * p) * x;
    Distribute(b, a * x, -((q * p) * x));
    assert b * (a * x) == (a * b) * x;
    assert b * ((q * p) * x) == p * (q * b * x);
    Distribute(p, b * y, -(q * b * x));
    assert b * (p * y) == p * (b * y);
  }

  /** Euclid's lemma. */
  lemma PrimeDividesProduct(p: nat, a: int, b: int)
    requires IsPrime(p) && Divides(p, a * b)
    ensures Divides(p, a) || Divides(p, b)
  {
    if !Divides(p, a) {
      assert Gcd(a % p, p) == 1 by {
        CongMod(a, p);
        assert !Divides(p, a % p) by { DividesCong(a, 0, p); DividesCong(a % p, 0, p); }
        PrimeCoprime(p, a % p);
      }
      var x, y := Bezout(a % p, p);
      ScaledBezout(a, b, p, a / p, a % p, x, y);
      DividesMultiple(p, 1);
      DividesLinear(p, a * b, x, p, b * y - (a / p) * b * x);
    }
  }

  // ---------------------------------------------- Fermat's little theorem

  function Pow(a: int, e: nat): int {
    if e == 0 then 1 else a * Pow(a, e - 1)
  }

  lemma {:induction false} PowAdd(a: int, e: nat, f: nat)
    ensures Pow(a, e + f) == Pow(a, e) * Pow(a, f)
  {
    if e != 0 {
      PowAdd(a, e - 1, f);
      assert a * (Pow(a, e - 1) * Pow(a, f)) == (a * Pow(a, e - 1)) * Pow(a, f);
    }
  }

  function PowTwo(e: nat): (r: nat)
    ensures r >= 1
  {
    if e == 0 then 1 else 2 * PowTwo(e - 1)
  }

  function Binomial(n: nat, k: int): nat {
    if k < 0 then 0
    else if n == 0 then (if k == 0 then 1 else 0)
    else Binomial(n - 1, k - 1) + Binomial(n - 1, k)
  }

  lemma {:induction false} BinomialEdges(n: nat)
    ensures Binomial(n, 0) == 1 && Binomial(n, n) == 1
    ensures forall k :: k > n ==> Binomial(n, k) == 0
  {
    if n != 0 {
      BinomialEdges(n - 1);
    }
  }

  lemma AbsorptionAlgebra(n: int, k: int, low: int, high: int, c: int, d: int, top: int)
    requires top == low + high && low == c + d
    requires k * high == (n - 1) * d && (k - 1) * low == (n - 1) * c
    ensures k * top == n * low
  {
    Distribute(k, low, high);
    Distribute(low, k - 1, 1);
    Distribute(n - 1, c, d);
    Distribute(low, n - 1, 1);
  }

  /** k * C(n, k) == n * C(n - 1, k - 1), which is what puts a factor p in C(p, k). */
  lemma {:induction false} BinomialAbsorption(n: nat, k: int)
    requires n > 0 && k > 0
    ensures k * Binomial(n, k) == n * Binomial(n - 1, k - 1)
  {
    BinomialEdges(n - 1);
    if n == 1 {
      BinomialEdges(1);
    } else {
      BinomialAbsorption(n - 1, k);
      BinomialEdges(n - 2);
      if k > 1 {
        BinomialAbsorption(n - 1, k - 1);
      }
      AbsorptionAlgebra(n, k, Binomial(n - 1, k - 1), Binomial(n - 1, k),
                        Binomial(n - 2, k - 2), Binomial(n - 2, k - 1), Binomial(n, k));
    }
  }

  /** The first m terms of the expansion of (1 + a)^n. */
  function BinomialSum(n: nat, a: int, m: nat): int {
    if m == 0 then 0 else BinomialSum(n, a, m - 1) + Binomial(n, m - 1) * Pow(a, m - 1)
  }

  lemma {:induction false} BinomialSumStep(n: nat, a: int, m: nat)
    ensures BinomialSum(n + 1, a, m + 1) == BinomialSum(n, a, m + 1) + a * BinomialSum(n, a, m)
  {
    BinomialEdges(n);
    BinomialEdges(n + 1);
    LastTerm(n, a, m + 1);
    LastTerm(n + 1, a, m + 1);
    if m != 0 {
      BinomialSumStep(n, a, m - 1);
      LastTerm(n, a, m);
      CollectTerms(Binomial(n, m - 1), Binomial(n, m), Pow(a, m - 1), a, BinomialSum(n, a, m - 1));
    }
  }

  lemma LastTerm(n: nat, a: int, m: nat)
    requires m > 0
    ensures BinomialSum(n, a, m) == BinomialSum(n, a, m - 1) + Binomial(n, m - 1) * Pow(a, m - 1)
  {
  }

  lemma CollectTerms(low: int, high: int, p: int, a: int, s: int)
    ensures (low + high) * (a * p) + a * s == high * (a * p) + a * (s + low * p)
  {
    assert (low + high) * (a * p) == low * (a * p) + high * (a * p);
    assert low * (a * p) == a * (low * p);
  }

  lemma {:induction false} BinomialTheorem(n: nat, a: int)
    ensures Pow(1 + a, n) == BinomialSum(n, a, n + 1)
  {
    if n == 0 {
      LastTerm(0, a, 1);
    } else {
      BinomialTheorem(n - 1, a);
      BinomialSumStep(n - 1, a, n);
      BinomialEdges(n - 1);
      LastTerm(n - 1, a, n + 1);
    }
  }

  /** Modulo a prime p every term of (1 + a)^p but the two outer ones vanishes. */
  lemma {:induction false} InnerTermsVanish(p: nat, a: int, m: nat)
    requires IsPrime(p) && 1 <= m <= p
    ensures Cong(BinomialSum(p, a, m), 1, p)
  {
    if m == 1 {
      BinomialEdges(p);
      assert BinomialSum(p, a, 1) == BinomialSum(p, a, 0) + Binomial(p, 0) * Pow(a, 0);
    } else {
      InnerTermsVanish(p, a, m - 1);
      var k := m - 1;
      BinomialAbsorption(p, k);
      DividesMultiple(p, Binomial(p - 1, k - 1));
      PrimeDividesProduct(p, k, Binomial(p, k));
      if Divides(p, k) { DividesBound(p, k); assert false; }
      DividesLinear(p, Binomial(p, k), Pow(a, k), p, 0);
      DividesCong(Binomial(p, k) * Pow(a, k), 0, p);
      CongAdd(BinomialSum(p, a, m - 1), 1, Binomial(p, k) * Pow(a, k), 0, p);
    }
  }

  lemma {:induction false} FermatPower(p: nat, a: nat)
    requires IsPrime(p)
    ensures Cong(Pow(a, p), a, p)
  {
    if a == 0 {
      assert Pow(0, p) == 0 * Pow(0, p - 1);
    } else {
      FermatPower(p, a - 1);
      BinomialTheorem(p, a - 1);
      InnerTermsVanish(p, a - 1, p);
      BinomialEdges(p);
      assert BinomialSum(p, a - 1, p + 1) == BinomialSum(p, a - 1, p) + Binomial(p, p) * Pow(a - 1, p);
      CongAdd(BinomialSum(p, a - 1, p), 1, Pow(a - 1, p), a - 1, p);
    }
  }

  lemma FermatLittle(p: nat, a: nat)
    requires IsPrime(p) && !Divides(p, a)
    ensures Cong(Pow(a, p - 1), 1, p)
  {
    FermatPower(p, a);
    DividesCong(Pow(a, p), a, p);
    assert Pow(a, p) - a == a * (Pow(a, p - 1) - 1);
    PrimeDividesProduct(p, a, Pow(a, p - 1) - 1);
    DividesCong(Pow(a, p - 1), 1, p);
  }
}
