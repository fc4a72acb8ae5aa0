/**
 * The primality test of generate_aligned_parameters.py. PassesTests says what the
 * loops compute; PrimePassesTests shows that no prime is ever rejected.
 */
module MillerRabin {
  import opened Modular

  const SMALL_PRIMES: seq<nat> := [2, 3, 5, 7, 11, 13, 17, 19, 23, 29, 31, 37]
  const WITNESSES: seq<nat> := [2, 325, 9375, 28178, 450775, 9780504, 1795265022]

  /** m == OddPart(m) * 2^TwoExponent(m), with an odd OddPart. */
  function OddPart(m: nat): nat
    requires m > 0
  {
    if m % 2 == 0 then OddPart(m / 2) else m
  }

  function TwoExponent(m: nat): nat
    requires m > 0
  {
    if m % 2 == 0 then 1 + TwoExponent(m / 2) else 0
  }

  lemma {:induction false} OddPartTimesPower(m: nat)
    requires m > 0
    ensures OddPart(m) * PowTwo(TwoExponent(m)) == m
  {
    if m % 2 == 0 {
      OddPartTimesPower(m / 2);
      var d, p := OddPart(m / 2), PowTwo(TwoExponent(m / 2));
      assert d * (2 * p) == 2 * (d * p);
    } else {
      assert PowTwo(0) == 1;
    }
  }

  /** The r-th value of the squaring loop for base a. */
  function Squaring(a: nat, n: nat, r: nat): nat
    requires n > 2
  {
    Pow(a, OddPart(n - 1) * PowTwo(r)) % n
  }

  /** The base a does not expose n as composite. */
  ghost predicate StrongProbablePrime(a: nat, n: nat)
    requires n > 2
  {
    || a % n == 0
    || Squaring(a, n, 0) == 1
    || exists r :: 0 <= r < TwoExponent(n - 1) && Squaring(a, n, r) == n - 1
  }

  ghost predicate HasSmallFactor(n: int) {
    exists i :: 0 <= i < |SMALL_PRIMES| && Divides(SMALL_PRIMES[i], n)
  }

  ghost predicate PassesTests(n: int) {
    && n >= 2
    && if HasSmallFactor(n) then n in SMALL_PRIMES
       else forall i :: 0 <= i < |WITNESSES| ==> n > 2 && StrongProbablePrime(WITNESSES[i], n)
  }

  lemma SmallPrimesCoprime(i: nat, j: nat)
    requires i < |SMALL_PRIMES| && j < |SMALL_PRIMES|
    requires Divides(SMALL_PRIMES[i], SMALL_PRIMES[j])
    ensures i == j
  {
  }

  lemma NoSmallFactorIsLarge(n: nat)
    requires n >= 2 && !HasSmallFactor(n)
    ensures n > 2 && n % 2 == 1
  {
    assert !Divides(SMALL_PRIMES[0], n);
  }

  lemma SquaringStart(a: nat, n: nat)
    requires n > 2
    ensures Squaring(a, n, 0) == Pow(a, OddPart(n - 1)) % n
  {
    assert PowTwo(0) == 1;
  }

  lemma DoubledExponent(d: nat, r: nat)
    ensures d * PowTwo(r + 1) == d * PowTwo(r) + d * PowTwo(r)
  {
    assert PowTwo(r + 1) == PowTwo(r) + PowTwo(r);
    Distribute(d, PowTwo(r), PowTwo(r));
  }

  lemma SquaredPower(a: nat, e: nat, n: nat)
    requires n > 0
    ensures Pow(a, e + e) % n == ((Pow(a, e) % n) * (Pow(a, e) % n)) % n
  {
    PowAdd(a, e, e);
    ModMulMod(Pow(a, e), Pow(a, e), n);
  }

  lemma SquaringStep(a: nat, n: nat, r: nat)
    requires n > 2
    ensures Squaring(a, n, r + 1) == (Squaring(a, n, r) * Squaring(a, n, r)) % n
  {
    DoubledExponent(OddPart(n - 1), r);
    SquaredPower(a, OddPart(n - 1) * PowTwo(r), n);
  }

  /** The squaring loop of one base, with Python's for/else exit. */
  method SquaringLoop(a: nat, d: nat, s: nat, n: nat) returns (probable: bool)
    requires n > 2 && d == OddPart(n - 1) && s == TwoExponent(n - 1) && s > 0
    requires a % n != 0
    ensures probable <==> StrongProbablePrime(a, n)
  {
    var x := Pow(a, d) % n;
    SquaringStart(a, n);
    if x == 1 || x == n - 1 {
      return true;
    }
    for r := 1 to s
      invariant x == Squaring(a, n, r - 1)
      invariant forall m :: 0 <= m < r ==> Squaring(a, n, m) != n - 1
    {
      SquaringStep(a, n, r - 1);
      x := x * x % n;
      if x == n - 1 {
        return true;
      }
    }
    return false;
  }

  /** The first small prime that divides n; |SMALL_PRIMES| when none does. */
  method FirstSmallFactor(n: int) returns (i: nat)
    ensures i <= |SMALL_PRIMES|
    ensures i < |SMALL_PRIMES| ==> Divides(SMALL_PRIMES[i], n)
    ensures i == |SMALL_PRIMES| ==> !HasSmallFactor(n)
  {
    for j := 0 to |SMALL_PRIMES|
      invariant forall m :: 0 <= m < j ==> !Divides(SMALL_PRIMES[m], n)
    {
      if n % SMALL_PRIMES[j] == 0 {
        return j;
      }
    }
    return |SMALL_PRIMES|;
  }

  /** Splits the even number m into its odd part and its power of two. */
  method SplitPowerOfTwo(m: nat) returns (d: nat, s: nat)
    requires m > 0
    ensures d == OddPart(m) && s == TwoExponent(m)
  {
    d, s := m, 0;
    while d % 2 == 0
      invariant d > 0 && OddPart(d) == OddPart(m)
      invariant s + TwoExponent(d) == TwoExponent(m)
      decreases d
    {
      d := d / 2;
      s := s + 1;
    }
  }

  lemma SmallFactorDecides(n: nat, i: nat)
    requires n >= 2 && i < |SMALL_PRIMES| && Divides(SMALL_PRIMES[i], n)
    ensures PassesTests(n) <==> n == SMALL_PRIMES[i]
  {
    if n in SMALL_PRIMES {
      var j :| 0 <= j < |SMALL_PRIMES| && SMALL_PRIMES[j] == n;
      SmallPrimesCoprime(i, j);
    }
  }

  // ------------------------------------------- what the answer means for one base

  /** n - 1 is the odd number d times 2^s. */
  ghost predicate SplitsAs(n: nat, d: nat, s: nat) {
    d % 2 == 1 && n - 1 == d * PowTwo(s)
  }

  /**
   * However n - 1 is written as an odd number times a power of two, the base does not
   * expose n: n divides it, or one of the powers that squaring visits is 1 at the start or -1.
   */
  ghost predicate Withstands(n: nat, a: nat)
    requires n > 2
  {
    forall d: nat, s: nat :: SplitsAs(n, d, s) ==>
      || a % n == 0
      || Pow(a, d) % n == 1
      || exists r :: 0 <= r < s && Pow(a, d * PowTwo(r)) % n == n - 1
  }

  lemma {:induction false} SplitIsUnique(d: nat, s: nat, m: nat)
    requires m > 0 && SplitsAs(m + 1, d, s)
    ensures d == OddPart(m) && s == TwoExponent(m)
  {
    if s > 0 {
      assert d * (2 * PowTwo(s - 1)) == 2 * (d * PowTwo(s - 1));
      assert m / 2 == d * PowTwo(s - 1);
      SplitIsUnique(d, s - 1, m / 2);
    } else {
      assert PowTwo(0) == 1;
    }
  }

  lemma {:induction false} OddPartIsOdd(m: nat)
    requires m > 0
    ensures OddPart(m) % 2 == 1
  {
    if m % 2 == 0 {
      OddPartIsOdd(m / 2);
    }
  }

  /** The two forms of the strong-probable-prime condition agree. */
  lemma StrongMeansWithstands(n: nat, a: nat)
    requires n > 2
    ensures StrongProbablePrime(a, n) <==> Withstands(n, a)
  {
    if StrongProbablePrime(a, n) {
      StrongWithstands(n, a);
    }
    if Withstands(n, a) {
      WithstandsIsStrong(n, a);
    }
  }

  lemma OwnSplit(n: nat)
    requires n > 1
    ensures SplitsAs(n, OddPart(n - 1), TwoExponent(n - 1))
  {
    OddPartIsOdd(n - 1);
    OddPartTimesPower(n - 1);
  }

  lemma WithstandsIsStrong(n: nat, a: nat)
    requires n > 2 && Withstands(n, a)
    ensures StrongProbablePrime(a, n)
  {
    var d, s := OddPart(n - 1), TwoExponent(n - 1);
    OwnSplit(n);
    SquaringStart(a, n);
    if a % n != 0 && Pow(a, d) % n != 1 {
      var r :| 0 <= r < s && Pow(a, d * PowTwo(r)) % n == n - 1;
      assert Squaring(a, n, r) == n - 1;
    }
  }

  lemma StrongWithstands(n: nat, a: nat)
    requires n > 2 && StrongProbablePrime(a, n)
    ensures Withstands(n, a)
  {
    forall d: nat, s: nat | SplitsAs(n, d, s)
      ensures a % n == 0 || Pow(a, d) % n == 1 || exists r :: 0 <= r < s && Pow(a, d * PowTwo(r)) % n == n - 1
    {
      SplitIsUnique(d, s, n - 1);
      SquaringStart(a, n);
      if a % n != 0 && Pow(a, d) % n != 1 {
        var r :| 0 <= r < s && Squaring(a, n, r) == n - 1;
        assert Pow(a, d * PowTwo(r)) % n == n - 1;
      }
    }
  }

  lemma {:induction false} SquaringEndsAtOne(a: nat, n: nat, r: nat, e: nat)
    requires n > 2 && r < e && (Squaring(a, n, 0) == 1 || Squaring(a, n, r) == n - 1)
    ensures Squaring(a, n, e) == 1
    decreases e
  {
    SmallMod(1, n);
    SquaringStep(a, n, e - 1);
    if Squaring(a, n, 0) == 1 {
      if e > 1 {
        SquaringEndsAtOne(a, n, 0, e - 1);
      }
    } else if r < e - 1 {
      SquaringEndsAtOne(a, n, r, e - 1);
    } else {
      CongFromMultiple((n - 1) * (n - 1), 1, n - 2, n);
    }
  }

  /** A number that withstands a base satisfies Fermat's congruence for it. */
  lemma WithstandsFermat(n: nat, a: nat)
    requires n > 2 && n % 2 == 1 && Withstands(n, a)
    ensures a % n == 0 || Pow(a, n - 1) % n == 1
  {
    StrongMeansWithstands(n, a);
    OddPartTimesPower(n - 1);
    if a % n != 0 {
      var s := TwoExponent(n - 1);
      if Squaring(a, n, 0) == 1 {
        SquaringEndsAtOne(a, n, 0, s);
      } else {
        var r :| 0 <= r < s && Squaring(a, n, r) == n - 1;
        SquaringEndsAtOne(a, n, r, s);
      }
    }
  }

  /** A number without a small factor passes exactly if it withstands the seven bases. */
  lemma SevenBases(n: nat)
    requires n > 2 && !HasSmallFactor(n)
    ensures PassesTests(n) <==>
      Withstands(n, 2) && Withstands(n, 325) && Withstands(n, 9375) && Withstands(n, 28178) && Withstands(n, 450775)
      && Withstands(n, 9780504) && Withstands(n, 1795265022)
  {
    forall i | 0 <= i < |WITNESSES| ensures StrongProbablePrime(WITNESSES[i], n) <==> Withstands(n, WITNESSES[i]) {
      StrongMeansWithstands(n, WITNESSES[i]);
    }
    assert WITNESSES[0] == 2 && WITNESSES[1] == 325 && WITNESSES[2] == 9375 && WITNESSES[3] == 28178;
    assert WITNESSES[4] == 450775 && WITNESSES[5] == 9780504 && WITNESSES[6] == 1795265022 && |WITNESSES| == 7;
  }

  lemma TrialPrime(p: int)
    ensures p in {2, 3, 5, 7, 11, 13, 17, 19, 23, 29, 31, 37} <==> p in SMALL_PRIMES
  {
    assert SMALL_PRIMES[0] == 2 && SMALL_PRIMES[1] == 3 && SMALL_PRIMES[2] == 5 && SMALL_PRIMES[3] == 7;
    assert SMALL_PRIMES[4] == 11 && SMALL_PRIMES[5] == 13 && SMALL_PRIMES[6] == 17 && SMALL_PRIMES[7] == 19;
    assert SMALL_PRIMES[8] == 23 && SMALL_PRIMES[9] == 29 && SMALL_PRIMES[10] == 31 && SMALL_PRIMES[11] == 37;
  }

  /** Trial division is by the primes up to 37. */
  lemma TrialDivision(n: int)
    ensures (forall p :: p in {2, 3, 5, 7, 11, 13, 17, 19, 23, 29, 31, 37} ==> !Divides(p, n)) <==> !HasSmallFactor(n)
  {
    forall p ensures p in {2, 3, 5, 7, 11, 13, 17, 19, 23, 29, 31, 37} <==> p in SMALL_PRIMES {
      TrialPrime(p);
    }
    if HasSmallFactor(n) {
      var i :| 0 <= i < |SMALL_PRIMES| && Divides(SMALL_PRIMES[i], n);
      assert SMALL_PRIMES[i] in SMALL_PRIMES;
    } else {
      forall p | p in SMALL_PRIMES ensures !Divides(p, n) {
        var i :| 0 <= i < |SMALL_PRIMES| && SMALL_PRIMES[i] == p;
      }
    }
  }

  /** What passing the tests means, with the trial primes and the bases written out. */
  lemma TestsDecide(n: int)
    ensures forall p :: p in {2, 3, 5, 7, 11, 13, 17, 19, 23, 29, 31, 37} && Divides(p, n) ==>
      (PassesTests(n) <==> n == p)
    ensures n > 2 && (forall p :: p in {2, 3, 5, 7, 11, 13, 17, 19, 23, 29, 31, 37} ==> !Divides(p, n)) ==>
      (PassesTests(n) <==>
        Withstands(n, 2) && Withstands(n, 325) && Withstands(n, 9375) && Withstands(n, 28178) && Withstands(n, 450775)
        && Withstands(n, 9780504) && Withstands(n, 1795265022))
  {
    forall p | p in {2, 3, 5, 7, 11, 13, 17, 19, 23, 29, 31, 37} && Divides(p, n)
      ensures PassesTests(n) <==> n == p
    {
      TrialPrime(p);
      var i :| 0 <= i < |SMALL_PRIMES| && SMALL_PRIMES[i] == p;
      if n >= 2 {
        SmallFactorDecides(n, i);
      }
    }
    TrialDivision(n);
    if n > 2 && !HasSmallFactor(n) {
      SevenBases(n);
    }
  }

  /** generate_aligned_parameters.py prime. */
  method Prime(n: int) returns (passed: bool)
    ensures passed <==> PassesTests(n)
    ensures passed ==> n >= 2
    ensures forall p :: p in {2, 3, 5, 7, 11, 13, 17, 19, 23, 29, 31, 37} && Divides(p, n) ==> (passed <==> n == p)
    ensures n > 2 && (forall p :: p in {2, 3, 5, 7, 11, 13, 17, 19, 23, 29, 31, 37} ==> !Divides(p, n)) ==>
      (passed <==>
        Withstands(n, 2) && Withstands(n, 325) && Withstands(n, 9375) && Withstands(n, 28178) && Withstands(n, 450775)
        && Withstands(n, 9780504) && Withstands(n, 1795265022))
  {
    TestsDecide(n);
    if n < 2 {
      return false;
    }
    var first := FirstSmallFactor(n);
    if first < |SMALL_PRIMES| {
      SmallFactorDecides(n, first);
      return n == SMALL_PRIMES[first];
    }
    passed := PassesBases(n);
  }

  /** The loop over the bases. */
  method PassesBases(n: nat) returns (passed: bool)
    requires n >= 2 && !HasSmallFactor(n)
    ensures passed <==> PassesTests(n)
  {
    NoSmallFactorIsLarge(n);
    var d, s := SplitPowerOfTwo(n - 1);
    for i := 0 to |WITNESSES|
      invariant forall j :: 0 <= j < i ==> StrongProbablePrime(WITNESSES[j], n)
    {
      var a := WITNESSES[i];
      if a % n == 0 {
        continue;
      }
      var probable := SquaringLoop(a, d, s, n);
      if !probable {
        return false;
      }
    }
    return true;
  }

  // ------------------------------------------------------- rejected composites

  /** Square-and-multiply. */
  function PowMod(a: nat, e: nat, n: nat): nat
    requires n > 0
  {
    if e == 0 then 1 % n
    else
      var h := PowMod(a, e / 2, n);
      if e % 2 == 0 then h * h % n else h * h % n * a % n
  }

  lemma {:induction false} PowModIsPow(a: nat, e: nat, n: nat)
    requires n > 0
    ensures PowMod(a, e, n) == Pow(a, e) % n
  {
    if e > 0 {
      PowModIsPow(a, e / 2, n);
      SquaredPower(a, e / 2, n);
      if e % 2 == 1 {
        assert Pow(a, e) == a * Pow(a, e / 2 + e / 2);
        ModMulMod(a, Pow(a, e / 2 + e / 2), n);
      }
    }
  }

  /** n - 1 = 2d with an odd d: the base exposes n if a^d is neither 1 nor -1. */
  lemma ExposedAt(n: nat, a: nat, d: nat)
    requires n > 2 && d % 2 == 1 && n - 1 == 2 * d && a % n != 0
    requires PowMod(a, d, n) != 1 && PowMod(a, d, n) != n - 1
    ensures !Withstands(n, a)
  {
    PowModIsPow(a, d, n);
    assert PowTwo(0) == 1 && PowTwo(1) == 2;
    assert SplitsAs(n, d, 1);
  }

  lemma PowModStep(a: nat, e: nat, n: nat, h: nat)
    requires n > 0 && e > 0 && PowMod(a, e / 2, n) == h
    ensures PowMod(a, e, n) == if e % 2 == 0 then h * h % n else h * h % n * a % n
  {
  }

  lemma ExposedByTwo(n: nat, d: nat)
    requires n > 2 && d % 2 == 1 && n - 1 == 2 * d && !HasSmallFactor(n)
    requires PowMod(2, d, n) != 1 && PowMod(2, d, n) != n - 1
    ensures !PassesTests(n)
  {
    NoSmallFactorIsLarge(n);
    SmallMod(2, n);
    ExposedAt(n, 2, d);
    SevenBases(n);
  }

  /** Trial division alone would let 1763 = 41 * 43 pass; the base 2 exposes it. */
  lemma RejectsComposite()
    ensures 1763 == 41 * 43 && !HasSmallFactor(1763) && !PassesTests(1763)
  {
    PowModStep(2, 1, 1763, 1);
    PowModStep(2, 3, 1763, 2);
    PowModStep(2, 6, 1763, 8);
    PowModStep(2, 13, 1763, 64);
    PowModStep(2, 27, 1763, 1140);
    PowModStep(2, 55, 1763, 538);
    PowModStep(2, 110, 1763, 624);
    PowModStep(2, 220, 1763, 1516);
    PowModStep(2, 440, 1763, 1067);
    PowModStep(2, 881, 1763, 1354);
    ExposedByTwo(1763, 881);
  }

  // ------------------------------------------------------------ completeness

  /** Modulo a prime, 1 has no square roots besides 1 and -1. */
  lemma SquareRootsOfOne(p: nat, x: nat)
    requires IsPrime(p) && x < p && (x * x) % p == 1
    ensures x == 1 || x == p - 1
  {
    SmallMod(1, p);
    DividesCong(x * x, 1, p);
    assert x * x - 1 == (x - 1) * (x + 1);
    PrimeDividesProduct(p, x - 1, x + 1);
    if Divides(p, x - 1) {
      DividesCong(x, 1, p);
      SmallMod(x, p);
    } else {
      DividesBound(p, x + 1);
    }
  }

  lemma {:induction false} SquareRootChain(p: nat, a: nat, r: nat)
    requires IsPrime(p) && p > 2 && Squaring(a, p, r) == 1
    ensures Squaring(a, p, 0) == 1 || exists m :: 0 <= m < r && Squaring(a, p, m) == p - 1
  {
    if r > 0 {
      SquaringStep(a, p, r - 1);
      SquareRootsOfOne(p, Squaring(a, p, r - 1));
      if Squaring(a, p, r - 1) == 1 {
        SquareRootChain(p, a, r - 1);
      }
    }
  }

  lemma PrimeIsStrongProbable(p: nat, a: nat)
    requires IsPrime(p) && p > 2
    ensures StrongProbablePrime(a, p)
  {
    if a % p != 0 {
      FermatLittle(p, a);
      OddPartTimesPower(p - 1);
      SmallMod(1, p);
      SquareRootChain(p, a, TwoExponent(p - 1));
    }
  }

  /** No prime is rejected, whatever its size. */
  lemma PrimePassesTests(p: nat)
    requires IsPrime(p)
    ensures PassesTests(p)
  {
    if HasSmallFactor(p) {
      var i :| 0 <= i < |SMALL_PRIMES| && Divides(SMALL_PRIMES[i], p);
      DividesBound(SMALL_PRIMES[i], p);
    } else {
      NoSmallFactorIsLarge(p);
      forall i | 0 <= i < |WITNESSES| ensures StrongProbablePrime(WITNESSES[i], p) {
        PrimeIsStrongProbable(p, WITNESSES[i]);
      }
    }
  }

  // ------------------------------- exactness below the square of 41

  lemma SmallFactor(d: nat)
    requires 2 <= d <= 40
    ensures HasSmallFactor(d)
  {
    if d % 2 == 0 {
      assert Divides(SMALL_PRIMES[0], d);
    } else if d % 3 == 0 {
      assert Divides(SMALL_PRIMES[1], d);
    } else if d % 5 == 0 {
      assert Divides(SMALL_PRIMES[2], d);
    } else {
      assert d in SMALL_PRIMES;
      var i :| 0 <= i < |SMALL_PRIMES| && SMALL_PRIMES[i] == d;
      DividesMultiple(d, 1);
      assert Divides(SMALL_PRIMES[i], d);
    }
  }

  lemma FactorBelowRoot(n: nat, d: nat) returns (e: nat)
    requires 2 <= d < n && Divides(d, n)
    ensures 2 <= e < n && Divides(e, n) && e * e <= n
  {
    var k := DividesQuotient(d, n);
    assert k >= 2 by { assert k <= 1 ==> k * d <= d; assert k < 0 ==> k * d < 0; }
    DividesMultiple(k, d);
    if d <= k {
      MulMonotone(d, k, d, d);
      e := d;
    } else {
      MulMonotone(k, k, k, d);
      MulMonotone(k, k, 2, d);
      e := k;
    }
  }

  /** Below 41 * 41 the answer is exact in both directions. */
  lemma ExactBelow1681(n: nat)
    requires n < 1681
    ensures PassesTests(n) <==> IsPrime(n)
  {
    if IsPrime(n) {
      PrimePassesTests(n);
    } else if PassesTests(n) {
      var d :| 2 <= d < n && Divides(d, n);
      var e := FactorBelowRoot(n, d);
      if e > 40 { MulMonotone(41, e, 41, e); assert false; }
      SmallFactor(e);
      var i :| 0 <= i < |SMALL_PRIMES| && Divides(SMALL_PRIMES[i], e);
      DividesTransitive(SMALL_PRIMES[i], e, n);
      DividesBound(SMALL_PRIMES[i], e);
      var j :| 0 <= j < |SMALL_PRIMES| && SMALL_PRIMES[j] == n;
      SmallPrimesCoprime(i, j);
      assert false;
    }
  }

  lemma DividesTransitive(a: int, b: int, c: int)
    requires Divides(a, b) && Divides(b, c)
    ensures Divides(a, c)
  {
    var k := DividesQuotient(b, c);
    DividesMultiple(a, 1);
    DividesLinear(a, b, k, a, 0);
  }
}
