/**
 * The modular helpers of helpers.go on machine integers. A uint64 is a nat below
 * TWO_64 and an int64 an int between -TWO_63 and TWO_63; sums, products and
 * conversions wrap, so the helpers are modelled for every modulus the types hold.
 */
module ModularHelpers {
  import opened Modular
  import opened Wrappers

  const TWO_32 := 0x1_0000_0000
  const TWO_63 := 0x8000_0000_0000_0000
  const TWO_64 := 0x1_0000_0000_0000_0000

  lemma {:induction false} PowTwoAdd(e: nat, f: nat)
    ensures PowTwo(e + f) == PowTwo(e) * PowTwo(f)
  {
    if e != 0 {
      PowTwoAdd(e - 1, f);
      assert 2 * (PowTwo(e - 1) * PowTwo(f)) == (2 * PowTwo(e - 1)) * PowTwo(f);
    }
  }

  lemma PowTwo64()
    ensures PowTwo(64) == TWO_64
  {
    assert PowTwo(8) == 256;
    PowTwoAdd(8, 8);
    PowTwoAdd(16, 16);
    assert PowTwo(32) == TWO_32;
    PowTwoAdd(32, 32);
  }

  /** The value of a uint64 expression. */
  function Wrap64(x: int): (r: nat)
    ensures r < TWO_64
  {
    x % TWO_64
  }

  lemma Wrap64Small(x: nat)
    requires x < TWO_64
    ensures Wrap64(x) == x
  {
    SmallMod(x, TWO_64);
  }

  predicate IsInt64(x: int) {
    -TWO_63 <= x < TWO_63
  }

  /** The value of an int64 expression, and the conversion of a uint64. */
  function Int64(x: int): (r: int)
    ensures IsInt64(r)
  {
    (x + TWO_63) % TWO_64 - TWO_63
  }

  /** An int64 is determined by its residue modulo 2^64. */
  lemma Int64Is(x: int, r: int)
    requires IsInt64(r) && Cong(x, r, TWO_64)
    ensures Int64(x) == r
  {
    CongAdd(x, r, TWO_63, TWO_63, TWO_64);
    SmallMod(r + TWO_63, TWO_64);
  }

  lemma Int64Cong(x: int)
    ensures Cong(Int64(x), x, TWO_64)
  {
    CongMod(x + TWO_63, TWO_64);
    CongSub((x + TWO_63) % TWO_64, x + TWO_63, TWO_63, TWO_63, TWO_64);
  }

  lemma Int64Small(x: int)
    requires IsInt64(x)
    ensures Int64(x) == x
  {
    Int64Is(x, x);
  }

  function ModAdd(a: nat, b: nat, m: nat): (r: nat)
    requires m > 0
    ensures r < m
    ensures a < m && b < m <= TWO_63 ==> r == (a + b) % m
  {
    assert a + b < TWO_64 ==> Wrap64(a + b) == a + b by { if a + b < TWO_64 { Wrap64Small(a + b); } }
    Wrap64(a + b) % m
  }

  lemma ProductBelow(a: nat, b: nat, limit: nat)
    requires a < limit && b < limit
    ensures a * b <= (limit - 1) * (limit - 1)
  {
    MulMonotone(a, limit - 1, b, limit - 1);
  }

  function ModMul(a: nat, b: nat, m: nat): (r: nat)
    requires m > 0
    ensures r < m
    ensures a < m && b < m <= TWO_32 ==> r == (a * b) % m
  {
    assert a < TWO_32 && b < TWO_32 ==> Wrap64(a * b) == a * b by {
      if a < TWO_32 && b < TWO_32 {
        ProductBelow(a, b, TWO_32);
        Wrap64Small(a * b);
      }
    }
    Wrap64(a * b) % m
  }

  /** For a prime modulus the 64-bit product is exact for all residues exactly up to 2^32. */
  lemma ProductsExactUpTo32Bits(m: nat)
    requires IsPrime(m)
    ensures m <= TWO_32 <==> forall a: nat, b: nat :: a < m && b < m ==> ModMul(a, b, m) == (a * b) % m
  {
    if m > TWO_32 {
      assert Wrap64(TWO_32 * TWO_32) == 0;
      SmallMod(0, m);
      assert (TWO_32 * TWO_32) % m != 0 by {
        if Divides(m, TWO_32 * TWO_32) {
          PrimeDividesProduct(m, TWO_32, TWO_32);
          SmallMod(TWO_32, m);
          assert false;
        }
      }
      assert ModMul(TWO_32, TWO_32, m) != (TWO_32 * TWO_32) % m;
    }
  }

  /** Go's division truncates. */
  function TruncatedDiv(v: int, m: int): int
    requires m != 0
  {
    if v >= 0 then v / m else -(-v / m)
  }

  /** Go's remainder takes the sign of the dividend. */
  function TruncatedMod(v: int, m: int): int
    requires m != 0
  {
    if v >= 0 then v % m else -(-v % m)
  }

  lemma TruncatedParts(v: int, m: int)
    requires m != 0
    ensures v == TruncatedDiv(v, m) * m + TruncatedMod(v, m)
    ensures Abs(TruncatedMod(v, m)) < Abs(m) && Abs(TruncatedMod(v, m)) <= Abs(v)
    ensures v >= 0 ==> TruncatedMod(v, m) >= 0
    ensures v <= 0 ==> TruncatedMod(v, m) <= 0
  {
    var u := Abs(v);
    assert u == (u / m) * m + u % m;
    assert -(u / m) * m == -((u / m) * m);
    if m > 0 {
      RemainderAtMost(u, m);
    } else {
      NegativeDivisor(u, -m);
      RemainderAtMost(u, -m);
    }
  }

  lemma RemainderAtMost(u: nat, m: nat)
    requires m > 0
    ensures u % m <= u
  {
    if u < m {
      SmallMod(u, m);
    }
  }

  lemma NegativeDivisor(u: int, m: int)
    requires u >= 0 && m > 0
    ensures u % -m == u % m && u / -m == -(u / m)
  {
    assert u == (u / m) * m + u % m;
    assert u == (u / -m) * -m + u % -m;
    assert u == -(u / -m) * m + u % -m by {
      assert (u / -m) * -m == -(u / -m) * m;
    }
    DivModUnique(u, -(u / -m), u % -m, m);
  }

  /** helpers.go modReduceSigned, for every uint64 modulus. */
  function ModReduceSigned(v: int, m: nat): (r: nat)
    requires 0 < m < TWO_64
  {
    var signed := Int64(m);
    assert signed != 0 by {
      Int64Cong(m);
      SmallMod(m, TWO_64);
    }
    var vm := TruncatedMod(v, signed);
    Wrap64(if vm < 0 then Int64(vm + signed) else vm)
  }

  /** Below 2^63 the result is the residue. */
  lemma ReducesBelow63Bits(v: int, m: nat)
    requires 0 < m < TWO_63 && IsInt64(v)
    ensures ModReduceSigned(v, m) < m && Cong(ModReduceSigned(v, m), v, m)
  {
    Int64Small(m);
    TruncatedParts(v, m);
    var vm := TruncatedMod(v, m);
    CongFromMultiple(v, vm, TruncatedDiv(v, m), m);
    if vm < 0 {
      Int64Small(vm + m);
      CongFromMultiple(vm + m, vm, 1, m);
      Wrap64Small(vm + m);
    } else {
      Wrap64Small(vm);
    }
  }

  /**
   * From 2^63 on the converted modulus is m - 2^64, and the result is the residue
   * exactly for the values that this negative modulus leaves alone, and for -2^63
   * itself modulo 2^63.
   */
  lemma ReducesFrom63Bits(v: int, m: nat)
    requires TWO_63 <= m < TWO_64 && IsInt64(v)
    ensures ModReduceSigned(v, m) == v % m <==> (Abs(v) < TWO_64 - m || (m == TWO_63 && v == -TWO_63))
  {
    var gap := TWO_64 - m;
    CongFromMultiple(m, -gap, 1, TWO_64);
    Int64Is(m, -gap);
    TruncatedParts(v, -gap);
    var vm := TruncatedMod(v, -gap);
    if v >= 0 {
      Wrap64Small(vm);
      SmallMod(v, m);
      if v < gap { NegativeDivisor(v, gap); SmallMod(v, gap); }
    } else {
      if -v < m {
        DivModUnique(v, -1, v + m, m);
      } else {
        DivModUnique(v, -1, 0, m);
      }
      if vm < 0 {
        Wrap64Negative(vm, gap);
      } else {
        Wrap64Small(vm);
      }
      if -v < gap { NegativeDivisor(-v, gap); SmallMod(-v, gap); }
    }
  }

  lemma Wrap64Negative(vm: int, gap: int)
    requires 0 < gap <= TWO_63 && -gap < vm < 0
    ensures Wrap64(Int64(vm - gap)) == vm + (TWO_64 - gap)
  {
    Int64Cong(vm - gap);
    CongFromMultiple(vm + (TWO_64 - gap), vm - gap, 1, TWO_64);
    SmallMod(vm + (TWO_64 - gap), TWO_64);
  }

  function Abs(x: int): nat {
    if x < 0 then -x else x
  }

  /**
   * The balance that the extended Euclidean loop keeps. The two cofactors never
   * have the same sign, and the weighted sum of their sizes is the modulus, so no
   * cofactor and no product in the loop can leave the int64 range.
   */
  ghost predicate EuclidBalance(a: int, m: int, t: int, newT: int, r: int, newR: int) {
    && m > 1
    && 0 <= newR < r <= m
    && (t <= 0 <= newT || newT <= 0 <= t)
    && Abs(newT) * r + Abs(t) * newR == m
    && 2 * Abs(t) <= m
    && Cong(t * a, r, m) && Cong(newT * a, newR, m)
  }

  lemma CofactorGrows(t: int, newT: int, q: nat)
    requires t <= 0 <= newT || newT <= 0 <= t
    ensures Abs(q * newT) == q * Abs(newT)
    ensures Abs(t - q * newT) == Abs(t) + q * Abs(newT)
    ensures newT <= 0 <= t - q * newT || t - q * newT <= 0 <= newT
  {
    assert newT >= 0 ==> q * newT >= 0;
    assert newT <= 0 ==> q * newT <= 0;
    assert q * -newT == -(q * newT);
  }

  lemma BalanceProduct(u: nat, v: nat, q: nat, r: nat, s: nat)
    requires s > 0 && q == r / s
    ensures r == q * s + r % s
    ensures u * r + v * s == (v + q * u) * s + u * (r % s)
    ensures v + q * u <= u * r + v * s
  {
    Distribute(u, q * s, r % s);
    assert u * (q * s) == (q * u) * s;
    Distribute(s, v, q * u);
    MulMonotone(v + q * u, v + q * u, 1, s);
  }

  /** The product of the step and the new cofactor stay within the modulus. */
  lemma EuclidStepInRange(a: int, m: int, t: int, newT: int, r: int, newR: int)
    requires EuclidBalance(a, m, t, newT, r, newR) && newR > 0
    ensures var q := r / newR;
      && Abs(q * newT) <= m && Abs(t - q * newT) <= m && 0 <= q * newR <= r
      && r - q * newR == r % newR
  {
    BalanceProduct(Abs(newT), Abs(t), r / newR, r, newR);
    CofactorGrows(t, newT, r / newR);
  }

  lemma EuclidStep(a: int, m: int, t: int, newT: int, r: int, newR: int)
    requires EuclidBalance(a, m, t, newT, r, newR) && newR > 0
    ensures var q := r / newR; EuclidBalance(a, m, newT, t - q * newT, newR, r - q * newR)
    ensures var q := r / newR; Gcd(newR, r - q * newR) == Gcd(r, newR)
  {
    var q := r / newR;
    BalanceProduct(Abs(newT), Abs(t), q, r, newR);
    CofactorGrows(t, newT, q);
    MulMonotone(Abs(newT), Abs(newT), 2, r);
    MulMonotone(0, Abs(t), newR, newR);
    StepCong(a, m, t, newT, r, newR, q);
  }

  lemma StepCong(a: int, m: int, t: int, newT: int, r: int, newR: int, q: int)
    requires m > 1 && Cong(t * a, r, m) && Cong(newT * a, newR, m)
    ensures Cong((t - q * newT) * a, r - q * newR, m)
  {
    CongMul(newT * a, newR, q, q, m);
    CongSub(t * a, r, newT * a * q, newR * q, m);
    assert (t - q * newT) * a == t * a - newT * a * q;
    assert newR * q == q * newR;
  }

  lemma RemainderStep(r: int, newR: int)
    requires IsInt64(r) && IsInt64(newR) && newR != 0
    ensures Int64(r - Int64(Int64(TruncatedDiv(r, newR)) * newR)) == TruncatedMod(r, newR)
  {
    var q := TruncatedDiv(r, newR);
    TruncatedParts(r, newR);
    Int64Cong(q);
    CongMul(Int64(q), q, newR, newR, TWO_64);
    Int64Cong(Int64(q) * newR);
    CongSub(r, r, Int64(Int64(q) * newR), q * newR, TWO_64);
    Int64Is(r - Int64(Int64(q) * newR), TruncatedMod(r, newR));
  }

  /** The loop of modInverse on wrapping int64 variables; the final cofactor and remainder. */
  function EuclidLoop(t: int, newT: int, r: int, newR: int): (int, int)
    requires IsInt64(r) && IsInt64(newR)
    decreases Abs(newR)
  {
    if newR == 0 then (t, r)
    else
      var q := Int64(TruncatedDiv(r, newR));
      var rest := Int64(r - Int64(q * newR));
      assert Abs(rest) < Abs(newR) by {
        RemainderStep(r, newR);
        TruncatedParts(r, newR);
      }
      EuclidLoop(newT, Int64(t - Int64(q * newT)), newR, rest)
  }

  /** What modInverse returns for every uint64 modulus; None stands for the failed assertion. */
  function InverseOf(a: nat, m: nat): Option<nat>
    requires 1 < m < TWO_64
  {
    var (t, r) := EuclidLoop(0, 1, Int64(m), Int64(a % m));
    if r != 1 then None else Some(Wrap64(if t < 0 then Int64(t + Int64(m)) else t))
  }

  /** helpers.go modInverse. */
  method ModInverse(a: nat, modulus: nat) returns (result: Option<nat>)
    requires 1 < modulus < TWO_64
    ensures result == InverseOf(a, modulus)
    ensures modulus < TWO_63 ==> (result.Some? <==> Gcd(a, modulus) == 1)
    ensures modulus < TWO_63 && result.Some? ==> result.value < modulus && (a * result.value) % modulus == 1
  {
    var t, newT := 0, 1;
    var r, newR := Int64(modulus), Int64(a % modulus);
    while newR != 0
      invariant IsInt64(r) && IsInt64(newR)
      invariant EuclidLoop(t, newT, r, newR) == EuclidLoop(0, 1, Int64(modulus), Int64(a % modulus))
      decreases Abs(newR)
    {
      RemainderStep(r, newR);
      TruncatedParts(r, newR);
      var q := Int64(TruncatedDiv(r, newR));
      t, newT := newT, Int64(t - Int64(q * newT));
      r, newR := newR, Int64(r - Int64(q * newR));
    }
    if modulus < TWO_63 {
      InverseBelow63Bits(a, modulus);
    }
    if r != 1 {
      return None;
    }
    if t < 0 {
      t := Int64(t + Int64(modulus));
    }
    return Some(Wrap64(t));
  }

  /** While the balance holds no operation of the step wraps. */
  lemma StepDoesNotWrap(a: int, m: int, t: int, newT: int, r: int, newR: int)
    requires m < TWO_63 && EuclidBalance(a, m, t, newT, r, newR) && newR > 0
    ensures var q := r / newR;
      && Int64(TruncatedDiv(r, newR)) == q
      && Int64(t - Int64(q * newT)) == t - q * newT
      && Int64(r - Int64(q * newR)) == r - q * newR
  {
    var q := r / newR;
    EuclidStepInRange(a, m, t, newT, r, newR);
    MulMonotone(q, q, 1, newR);
    Int64Small(q);
    Int64Small(q * newT);
    Int64Small(t - q * newT);
    Int64Small(q * newR);
    Int64Small(r - q * newR);
  }

  /** From a balanced state the loop ends in the greatest common divisor, still balanced. */
  lemma {:induction false} EuclidLoopExact(a: nat, m: nat, t: int, newT: int, r: int, newR: int) returns (lastT: int)
    requires m < TWO_63 && EuclidBalance(a, m, t, newT, r, newR)
    ensures var (cofactor, rest) := EuclidLoop(t, newT, r, newR);
      rest == Gcd(r, newR) && EuclidBalance(a, m, cofactor, lastT, rest, 0)
    decreases newR
  {
    if newR == 0 {
      lastT := newT;
    } else {
      var q := r / newR;
      EuclidStep(a, m, t, newT, r, newR);
      StepDoesNotWrap(a, m, t, newT, r, newR);
      lastT := EuclidLoopExact(a, m, newT, t - q * newT, newR, r - q * newR);
    }
  }

  /** Below 2^63 the helper inverts exactly the units, and its assertion fails exactly on the others. */
  lemma InverseBelow63Bits(a: nat, m: nat)
    requires 1 < m < TWO_63
    ensures InverseOf(a, m).Some? <==> Gcd(a, m) == 1
    ensures InverseOf(a, m).Some? ==> InverseOf(a, m).value < m && (a * InverseOf(a, m).value) % m == 1
  {
    Int64Small(m);
    Int64Small(a % m);
    GcdReduced(a, m);
    EuclidStart(a, m);
    var lastT := EuclidLoopExact(a, m, 0, 1, m, a % m);
    var (t, r) := EuclidLoop(0, 1, m, a % m);
    if r == 1 {
      EuclidDone(a, m, t, lastT);
      if t < 0 {
        Int64Small(t + m);
      }
      Wrap64Small(if t < 0 then t + m else t);
    }
  }

  lemma InverseOfOne(m: nat)
    requires 1 < m < TWO_64
    ensures InverseOf(1, m) == Some(1)
  {
    SmallMod(1, m);
    Int64Small(1);
    RemainderStep(Int64(m), 1);
    TruncatedParts(Int64(m), 1);
    assert EuclidLoop(0, 1, Int64(m), 1).1 == 1;
    Int64Small(1);
  }

  /**
   * From 2^63 on the converted modulus is negative, the remainders end at -1, and the
   * assertion fails for m - 1 although that is a unit.
   */
  lemma MinusOneFailsFrom63Bits(m: nat)
    requires TWO_63 <= m < TWO_64
    ensures Gcd(m - 1, m) == 1 && InverseOf(m - 1, m) == None
  {
    CongFromMultiple((m - 1) * -1, 1, -1, m);
    InvertibleIffCoprime(m - 1, -1, m);
    SmallMod(m - 1, m);
    var gap := TWO_64 - m;
    CongFromMultiple(m, -gap, 1, TWO_64);
    Int64Is(m, -gap);
    if m == TWO_63 {
      Int64Small(m - 1);
      LoopRemainder(0, 1, -TWO_63, TWO_63 - 1);
      SmallMod(1, TWO_63 - 1);
      assert TruncatedMod(-TWO_63, TWO_63 - 1) == -1;
      assert TruncatedMod(TWO_63 - 1, -1) == 0;
      assert LastRemainder(TWO_63 - 1, -1) == LastRemainder(-1, 0) == -1;
    } else {
      CongFromMultiple(m - 1, -gap - 1, 1, TWO_64);
      Int64Is(m - 1, -gap - 1);
      LoopRemainder(0, 1, -gap, -gap - 1);
      EndsAtMinusOne(gap);
    }
  }

  /** The remainders do not depend on the cofactors. */
  function LastRemainder(r: int, newR: int): int
    requires IsInt64(r) && IsInt64(newR)
    decreases Abs(newR)
  {
    if newR == 0 then r
    else
      TruncatedParts(r, newR);
      LastRemainder(newR, TruncatedMod(r, newR))
  }

  lemma {:induction false} LoopRemainder(t: int, newT: int, r: int, newR: int)
    requires IsInt64(r) && IsInt64(newR)
    ensures EuclidLoop(t, newT, r, newR).1 == LastRemainder(r, newR)
    decreases Abs(newR)
  {
    if newR != 0 {
      RemainderStep(r, newR);
      TruncatedParts(r, newR);
      var q := Int64(TruncatedDiv(r, newR));
      LoopRemainder(newT, Int64(t - Int64(q * newT)), newR, TruncatedMod(r, newR));
    }
  }

  lemma EndsAtMinusOne(gap: int)
    requires 0 < gap < TWO_63
    ensures LastRemainder(-gap, -gap - 1) == -1
  {
    NegativeDivisor(gap, gap + 1);
    SmallMod(gap, gap + 1);
    assert LastRemainder(-gap, -gap - 1) == LastRemainder(-gap - 1, -gap);
    NegativeDivisor(gap + 1, gap);
    if gap == 1 {
      assert TruncatedMod(-2, -1) == 0;
      assert LastRemainder(-2, -1) == LastRemainder(-1, 0);
    } else {
      DivModUnique(gap + 1, 1, 1, gap);
      assert TruncatedMod(-gap, -1) == 0;
      assert LastRemainder(-gap - 1, -gap) == LastRemainder(-gap, -1) == LastRemainder(-1, 0);
    }
  }

  /** The helper is correct for all units exactly for the moduli that fit an int64. */
  lemma InvertsAllUnitsBelow63Bits(m: nat)
    requires 1 < m < TWO_64
    ensures m < TWO_63 <==>
      forall a: nat :: Gcd(a, m) == 1 ==> InverseOf(a, m).Some? && (a * InverseOf(a, m).value) % m == 1
  {
    if m < TWO_63 {
      forall a: nat | Gcd(a, m) == 1 ensures InverseOf(a, m).Some? && (a * InverseOf(a, m).value) % m == 1 {
        InverseBelow63Bits(a, m);
      }
    } else {
      MinusOneFailsFrom63Bits(m);
    }
  }

  /** The cofactor of the last step, made non-negative, is the inverse. */
  lemma EuclidDone(a: int, m: int, t: int, newT: int)
    requires EuclidBalance(a, m, t, newT, 1, 0)
    ensures var inverse := if t < 0 then t + m else t; 0 <= inverse < m && (a * inverse) % m == 1
  {
    SmallMod(1, m);
    if t < 0 {
      Distribute(a, t, m);
      CongFromMultiple(a * (t + m), t * a, a, m);
    }
  }

  lemma EuclidStart(a: nat, m: nat)
    requires m > 1
    ensures EuclidBalance(a, m, 0, 1, m, a % m)
  {
    CongMod(a, m);
    CongFromMultiple(m, 0, 1, m);
    assert 1 * a == a && 0 * a == 0 && 1 * m == m;
  }

  lemma GcdReduced(a: nat, m: nat)
    requires m > 0
    ensures Gcd(m, a % m) == Gcd(a, m)
  {
  }
}
