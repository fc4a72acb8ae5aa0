/**
 * Generation of aligned BGV parameters (generate_aligned_parameters.py find_prime
 * and generate) and the choice of a plaintext modulus (helpers.go
 * pickPlaintextModulus).
 */
module Parameters {
  import opened Modular
  import opened ModularHelpers
  import opened MillerRabin
  import opened Wrappers

  /** A member of the progression that find_prime may return. */
  ghost predicate Admissible(w: int, bits: nat, step: nat, residue: int, excluded: set<int>)
    requires step > 0 && bits > 0
  {
    && PowTwo(bits - 1) <= w < PowTwo(bits)
    && Cong(w, residue, step)
    && w !in excluded && PassesTests(w)
  }

  lemma SameClassApart(v: int, w: int, step: nat)
    requires step > 0 && Cong(v, w, step) && v - step < w <= v
    ensures v == w
  {
    DividesCong(v, w, step);
    if v != w {
      DividesBound(step, v - w);
    }
  }

  ghost predicate AboveAdmissible(value: int, bits: nat, step: nat, residue: int, excluded: set<int>)
    requires step > 0 && bits > 0
  {
    forall w :: Admissible(w, bits, step, residue, excluded) ==> w <= value
  }

  lemma ProgressionTop(bits: nat, step: nat, residue: int, excluded: set<int>)
    requires bits > 0 && step > 0
    ensures var top := PowTwo(bits) - 1; var v := top - (top - residue) % step;
      v <= top && Cong(v, residue, step) && AboveAdmissible(v, bits, step, residue, excluded)
  {
    var top := PowTwo(bits) - 1;
    var v := top - (top - residue) % step;
    CongMod(top - residue, step);
    CongSub(top, top, (top - residue) % step, top - residue, step);
    forall w | Admissible(w, bits, step, residue, excluded) ensures w <= v {
      if v < w {
        SameClassApart(w, v, step);
      }
    }
  }

  lemma StepDown(bits: nat, step: nat, residue: int, excluded: set<int>, value: int)
    requires bits > 0 && step > 0 && Cong(value, residue, step)
    requires value in excluded || !PassesTests(value)
    requires AboveAdmissible(value, bits, step, residue, excluded)
    ensures Cong(value - step, residue, step)
    ensures AboveAdmissible(value - step, bits, step, residue, excluded)
  {
    forall w | Admissible(w, bits, step, residue, excluded) ensures w <= value - step {
      if value - step < w {
        SameClassApart(value, w, step);
      }
    }
    CongFromMultiple(value - step, value, -1, step);
  }

  /** Every prime of the size and the progression that is not excluded is admissible. */
  lemma PrimesAdmissible(bits: nat, step: nat, residue: int, excluded: set<int>)
    requires bits > 0 && step > 0
    ensures forall w ::
      IsPrime(w) && PowTwo(bits - 1) <= w < PowTwo(bits) && Cong(w, residue, step) && w !in excluded ==>
        Admissible(w, bits, step, residue, excluded)
  {
    forall w | IsPrime(w) && PowTwo(bits - 1) <= w < PowTwo(bits) && Cong(w, residue, step) && w !in excluded
      ensures Admissible(w, bits, step, residue, excluded)
    {
      PrimePassesTests(w);
    }
  }

  /** None stands for the ValueError. The value found is the largest admissible one. */
  method FindPrime(bits: nat, step: nat, residue: int, excluded: set<int>) returns (found: Option<int>)
    requires bits > 0 && step > 0
    ensures found.Some? ==> Admissible(found.value, bits, step, residue, excluded)
    ensures forall w :: Admissible(w, bits, step, residue, excluded) ==> found.Some? && w <= found.value
    ensures found.Some? ==>
      && PowTwo(bits - 1) <= found.value < PowTwo(bits) && Cong(found.value, residue, step)
      && found.value !in excluded && PassesTests(found.value)
    ensures forall w ::
      IsPrime(w) && PowTwo(bits - 1) <= w < PowTwo(bits) && Cong(w, residue, step) && w !in excluded ==>
        found.Some? && w <= found.value
  {
    PrimesAdmissible(bits, step, residue, excluded);
    var top := PowTwo(bits) - 1;
    var value := top - (top - residue) % step;
    ProgressionTop(bits, step, residue, excluded);
    while value >= PowTwo(bits - 1)
      invariant value < PowTwo(bits) && Cong(value, residue, step)
      invariant AboveAdmissible(value, bits, step, residue, excluded)
      decreases value
    {
      if value !in excluded {
        var passed := Prime(value);
        if passed {
          return Some(value);
        }
      }
      StepDown(bits, step, residue, excluded, value);
      value := value - step;
    }
    return None;
  }

  // ------------------------------------------------------------- generate

  function Product(s: seq<int>): int {
    if s == [] then 1 else s[|s| - 1] * Product(s[..|s| - 1])
  }

  lemma ProductAppend(s: seq<int>, x: int)
    ensures Product(s + [x]) == x * Product(s)
  {
    assert (s + [x])[..|s|] == s;
  }

  function Elements(s: seq<int>): set<int> {
    set x | x in s
  }

  ghost predicate Distinct(s: seq<int>) {
    forall i, j :: 0 <= i < j < |s| ==> s[i] != s[j]
  }

  /** Primes of the RNS basis: pairwise distinct, not t, and supporting the NTT. */
  ghost predicate NttBasis(s: seq<int>, step: nat, t: int)
    requires step > 0
  {
    && Distinct(s)
    && forall i :: 0 <= i < |s| ==> PassesTests(s[i]) && Cong(s[i], 1, step) && s[i] != t
  }

  // What generate is meant to find: greedy choices of the largest usable primes.

  /** A prime that may join the basis: of the given size, 1 modulo the step, not used yet. */
  ghost predicate Usable(w: int, bits: nat, step: nat, used: seq<int>, t: int)
    requires step > 0 && bits > 0
  {
    Admissible(w, bits, step, 1, Elements(used) + {t})
  }

  ghost predicate LargestUsable(w: int, bits: nat, step: nat, used: seq<int>, t: int)
    requires step > 0 && bits > 0
  {
    Usable(w, bits, step, used, t) && forall v :: Usable(v, bits, step, used, t) ==> v <= w
  }

  /** Each prime of s is the largest one that the basis and its predecessors leave. */
  ghost predicate Greedy(basis: seq<int>, s: seq<int>, bits: nat, step: nat, t: int)
    requires step > 0 && bits > 0
  {
    forall i :: 0 <= i < |s| ==> LargestUsable(s[i], bits, step, basis + s[..i], t)
  }

  /** No prime of the size that is 1 modulo the step and left over at its turn exceeds the one taken. */
  ghost predicate TakesLargestPrimes(basis: seq<int>, s: seq<int>, bits: nat, step: nat, t: int)
    requires step > 0 && bits > 0
  {
    forall i, w ::
      && 0 <= i < |s| && IsPrime(w) && PowTwo(bits - 1) <= w < PowTwo(bits) && Cong(w, 1, step)
      && w !in basis + s[..i] && w != t ==>
        w <= s[i]
  }

  /** Distinct primes of the size that are 1 modulo the step and not used. */
  ghost predicate UnusedPrimes(r: seq<int>, basis: seq<int>, bits: nat, step: nat, t: int)
    requires step > 0 && bits > 0
  {
    && Distinct(r)
    && forall i :: 0 <= i < |r| ==>
         && IsPrime(r[i]) && PowTwo(bits - 1) <= r[i] < PowTwo(bits) && Cong(r[i], 1, step)
         && r[i] !in basis && r[i] != t
  }

  lemma PrimeIsUsable(w: int, bits: nat, step: nat, used: seq<int>, t: int)
    requires step > 0 && bits > 0 && IsPrime(w) && PowTwo(bits - 1) <= w < PowTwo(bits) && Cong(w, 1, step)
    requires w !in used && w != t
    ensures Usable(w, bits, step, used, t)
  {
    PrimePassesTests(w);
  }

  lemma GreedyTakesLargest(basis: seq<int>, s: seq<int>, bits: nat, step: nat, t: int)
    requires step > 0 && bits > 0 && Greedy(basis, s, bits, step, t)
    ensures TakesLargestPrimes(basis, s, bits, step, t)
  {
    forall i, w |
      && 0 <= i < |s| && IsPrime(w) && PowTwo(bits - 1) <= w < PowTwo(bits) && Cong(w, 1, step)
      && w !in basis + s[..i] && w != t
      ensures w <= s[i]
    {
      PrimeIsUsable(w, bits, step, basis + s[..i], t);
      assert LargestUsable(s[i], bits, step, basis + s[..i], t);
    }
  }

  lemma {:induction false} DistinctWithin(r: seq<int>, s: seq<int>)
    requires Distinct(r) && forall i :: 0 <= i < |r| ==> r[i] in s
    ensures |r| <= |s|
  {
    if r != [] {
      var last := r[|r| - 1];
      var k :| 0 <= k < |s| && s[k] == last;
      var rest := s[..k] + s[k + 1..];
      var front := r[..|r| - 1];
      forall i | 0 <= i < |front| ensures front[i] in rest {
        var j :| 0 <= j < |s| && s[j] == r[i];
        assert s[j] == rest[if j < k then j else j - 1];
      }
      DistinctWithin(front, rest);
    }
  }

  /** Where the search is stuck after s, at most |s| unused primes existed. */
  lemma StuckWithoutPrimes(basis: seq<int>, s: seq<int>, r: seq<int>, bits: nat, step: nat, t: int)
    requires step > 0 && bits > 0 && UnusedPrimes(r, basis, bits, step, t)
    requires forall v :: !Usable(v, bits, step, basis + s, t)
    ensures |r| <= |s|
  {
    forall i | 0 <= i < |r| ensures r[i] in s {
      if r[i] !in s {
        PrimeIsUsable(r[i], bits, step, basis + s, t);
      }
    }
    DistinctWithin(r, s);
  }

  /** A usable prime that makes the product of the basis -1 modulo t. */
  ghost predicate Completes(w: int, bits: nat, step: nat, qs: seq<int>, t: int)
    requires step > 0 && bits > 0 && t > 0
  {
    Usable(w, bits, step, qs, t) && (w * Product(qs)) % t == t - 1
  }

  ghost predicate LargestCompletion(w: int, bits: nat, step: nat, qs: seq<int>, t: int)
    requires step > 0 && bits > 0 && t > 0
  {
    Completes(w, bits, step, qs, t) && forall v :: Completes(v, bits, step, qs, t) ==> v <= w
  }

  /** The Q primes: greedy ones, and the largest that completes their product. */
  ghost predicate GeneratedQ(q: seq<int>, step: nat, qBits: nat, count: nat, t: int)
    requires step > 0 && qBits > 0 && count > 0 && t > 0
  {
    && |q| == count && Greedy([], q[..count - 1], qBits, step, t)
    && LargestCompletion(q[count - 1], qBits, step, q[..count - 1], t)
  }

  ghost predicate Generated(p: RnsParameters, step: nat, qBits: nat, count: nat, pBits: nat, pCount: int, t: int)
    requires step > 0 && qBits > 0 && pBits > 0 && count > 0 && t > 0
  {
    GeneratedQ(p.Q, step, qBits, count, t) && |p.P| == pCount && Greedy(p.Q, p.P, pBits, step, t)
  }

  /** The greedy primes exist and their product is no unit modulo t. */
  ghost predicate ProductStuck(step: nat, qBits: nat, count: nat, t: int)
    requires step > 0 && qBits > 0 && count > 0 && t > 0
  {
    exists first :: |first| == count - 1 && Greedy([], first, qBits, step, t) && Gcd(Product(first) % t, t) != 1
  }

  lemma {:induction false} GreedyUnique(basis: seq<int>, s: seq<int>, r: seq<int>, bits: nat, step: nat, t: int)
    requires step > 0 && bits > 0 && Greedy(basis, s, bits, step, t) && Greedy(basis, r, bits, step, t)
    requires |s| <= |r|
    ensures s == r[..|s|]
  {
    if s != [] {
      var n := |s| - 1;
      assert forall i :: 0 <= i < n ==> s[..n][..i] == s[..i];
      GreedyUnique(basis, s[..n], r, bits, step, t);
      assert LargestUsable(s[n], bits, step, basis + s[..n], t);
      assert LargestUsable(r[n], bits, step, basis + r[..n], t);
    }
  }

  lemma GreedyAt(basis: seq<int>, s: seq<int>, i: nat, bits: nat, step: nat, t: int)
    requires step > 0 && bits > 0 && Greedy(basis, s, bits, step, t) && i < |s|
    ensures Usable(s[i], bits, step, basis + s[..i], t)
  {
    assert LargestUsable(s[i], bits, step, basis + s[..i], t);
  }

  lemma GreedySame(basis: seq<int>, s: seq<int>, r: seq<int>, bits: nat, step: nat, t: int)
    requires step > 0 && bits > 0 && Greedy(basis, s, bits, step, t) && Greedy(basis, r, bits, step, t)
    requires |s| == |r|
    ensures s == r
  {
    GreedyUnique(basis, s, r, bits, step, t);
    assert r[..|s|] == r;
  }

  ghost predicate HasQ(step: nat, qBits: nat, count: nat, t: int)
    requires step > 0 && qBits > 0 && count > 0 && t > 0
  {
    exists q :: GeneratedQ(q, step, qBits, count, t)
  }

  ghost predicate HasResult(step: nat, qBits: nat, count: nat, pBits: nat, pCount: int, t: int)
    requires step > 0 && qBits > 0 && pBits > 0 && count > 0 && t > 0
  {
    exists p :: Generated(p, step, qBits, count, pBits, pCount, t)
  }

  /** Without greedy primes there are no Q primes, and no product to be stuck at. */
  lemma NoGreedy(step: nat, qBits: nat, count: nat, t: int)
    requires step > 0 && qBits > 0 && count > 0 && t > 0
    requires forall r :: |r| == count - 1 ==> !Greedy([], r, qBits, step, t)
    ensures !HasQ(step, qBits, count, t) && !ProductStuck(step, qBits, count, t)
  {
    forall q ensures !GeneratedQ(q, step, qBits, count, t) {
      if |q| == count {
        assert !Greedy([], q[..count - 1], qBits, step, t);
      }
    }
  }

  /** Without a completion of the greedy primes there are no Q primes. */
  lemma NoCompletion(first: seq<int>, step: nat, qBits: nat, count: nat, t: int)
    requires step > 0 && qBits > 0 && t > 0 && |first| + 1 == count && Greedy([], first, qBits, step, t)
    requires forall w :: !Completes(w, qBits, step, first, t)
    ensures !HasQ(step, qBits, count, t)
  {
    forall q ensures !GeneratedQ(q, step, qBits, count, t) {
      if GeneratedQ(q, step, qBits, count, t) {
        GreedySame([], first, q[..count - 1], qBits, step, t);
      }
    }
  }

  /** Without greedy P primes after the Q primes there is no result. */
  lemma NoSpecialPrimes(q: seq<int>, step: nat, qBits: nat, count: nat, pBits: nat, pCount: nat, t: int)
    requires step > 0 && qBits > 0 && pBits > 0 && count > 0 && t > 0 && GeneratedQ(q, step, qBits, count, t)
    requires forall r :: |r| == pCount ==> !Greedy(q, r, pBits, step, t)
    ensures !HasResult(step, qBits, count, pBits, pCount, t)
  {
    forall p ensures !Generated(p, step, qBits, count, pBits, pCount, t) {
      if GeneratedQ(p.Q, step, qBits, count, t) {
        SameQ(q, p.Q, qBits, step, count, t);
      }
    }
  }

  /** Whether the product is stuck depends on the one greedy sequence only. */
  lemma StuckOnlyAt(first: seq<int>, step: nat, qBits: nat, count: nat, t: int)
    requires step > 0 && qBits > 0 && t > 0 && |first| + 1 == count && Greedy([], first, qBits, step, t)
    ensures ProductStuck(step, qBits, count, t) <==> Gcd(Product(first) % t, t) != 1
  {
    if ProductStuck(step, qBits, count, t) {
      var other :| |other| == count - 1 && Greedy([], other, qBits, step, t) && Gcd(Product(other) % t, t) != 1;
      GreedySame([], first, other, qBits, step, t);
    }
  }

  lemma GreedyExtends(basis: seq<int>, s: seq<int>, x: int, bits: nat, step: nat, t: int)
    requires step > 0 && bits > 0 && Greedy(basis, s, bits, step, t)
    requires LargestUsable(x, bits, step, basis + s, t)
    ensures Greedy(basis, s + [x], bits, step, t)
  {
    assert forall i :: 0 <= i <= |s| ==> (s + [x])[..i] == s[..i];
    assert s[..|s|] == s;
  }

  /** Where the greedy search is stuck no longer greedy sequence exists. */
  lemma GreedyStuck(basis: seq<int>, s: seq<int>, r: seq<int>, bits: nat, step: nat, t: int)
    requires step > 0 && bits > 0 && Greedy(basis, s, bits, step, t) && Greedy(basis, r, bits, step, t)
    requires forall v :: !Usable(v, bits, step, basis + s, t)
    ensures |r| <= |s|
  {
    if |r| > |s| {
      GreedyAt(basis, r, |s|, bits, step, t);
      GreedyUnique(basis, s, r, bits, step, t);
      assert false;
    }
  }

  /** There is at most one result. */
  lemma GeneratedUnique(p: RnsParameters, r: RnsParameters, step: nat, qBits: nat, count: nat, pBits: nat,
      pCount: int, t: int)
    requires step > 0 && qBits > 0 && pBits > 0 && count > 0 && t > 0
    requires Generated(p, step, qBits, count, pBits, pCount, t) && Generated(r, step, qBits, count, pBits, pCount, t)
    ensures p == r
  {
    SameQ(p.Q, r.Q, qBits, step, count, t);
    GreedySame(p.Q, p.P, r.P, pBits, step, t);
  }

  lemma SameQ(p: seq<int>, r: seq<int>, bits: nat, step: nat, count: nat, t: int)
    requires step > 0 && bits > 0 && t > 0 && |p| == |r| == count > 0
    requires Greedy([], p[..count - 1], bits, step, t) && LargestCompletion(p[count - 1], bits, step, p[..count - 1], t)
    requires Greedy([], r[..count - 1], bits, step, t) && LargestCompletion(r[count - 1], bits, step, r[..count - 1], t)
    ensures p == r
  {
    GreedySame([], p[..count - 1], r[..count - 1], bits, step, t);
    assert p == p[..count - 1] + [p[count - 1]] && r == r[..count - 1] + [r[count - 1]];
  }

  lemma UnitFromBezout(r: int, u: int, v: int, m: nat)
    requires m > 1 && r * u + m * v == 1
    ensures Cong(r * u, 1, m)
  {
    CongFromMultiple(r * u, 1, -v, m);
  }

  lemma PowInverseMeaning(x: int, m: nat)
    requires m > 1 && Gcd(x % m, m) == 1
    ensures Cong(x * (BezoutPair(x % m, m).0 % m), 1, m)
  {
    var u, v := Bezout(x % m, m);
    UnitFromBezout(x % m, u, v, m);
    ModMulMod(x, u, m);
    assert Cong((x % m) * u, x * u, m) && Cong(x * (u % m), x * u, m);
  }

  /** Python's pow(x, -1, m); None stands for its ValueError. */
  method PowInverse(x: int, m: nat) returns (r: Option<nat>)
    requires m > 1
    ensures r.Some? <==> Gcd(x % m, m) == 1
    ensures r.Some? ==> r.value < m && Cong(x * r.value, 1, m)
  {
    var a := x % m;
    if Gcd(a, m) != 1 {
      return None;
    }
    var u := BezoutPair(a, m).0 % m;
    PowInverseMeaning(x, m);
    return Some(u);
  }

  // The last prime: its residue solves both congruences.

  lemma LastModStep(step: nat, t: nat, c: int, residue: int, last: int)
    requires t > 0 && step > 0 && step * t > 0
    requires residue == 1 + step * c && Cong(last, residue, step * t)
    ensures Cong(last, 1, step) && Cong(last, residue, t)
  {
    var k := CongQuotient(last, residue, step * t);
    assert k * (step * t) == (k * t) * step == (k * step) * t;
    Distribute(step, c, k * t);
    CongFromMultiple(last, 1, c + k * t, step);
    CongFromMultiple(last, residue, k * step, t);
  }

  lemma ResidueModT(target: int, step: nat, stepInverse: int, t: nat)
    requires t > 1 && Cong(step * stepInverse, 1, t)
    ensures Cong(1 + step * (((target - 1) * stepInverse) % t), target, t)
  {
    var product := (target - 1) * stepInverse;
    CongMod(product, t);
    CongMul(step, step, product % t, product, t);
    CongMul(step * stepInverse, 1, target - 1, target - 1, t);
    assert step * product == (step * stepInverse) * (target - 1);
    CongAdd(1, 1, step * (product % t), target - 1, t);
  }

  /**
   * residue = 1 + step * ((target - 1) * step^-1 mod t) is 1 modulo the step and,
   * modulo t, the negated inverse of the product so far.
   */
  lemma ResidueSolvesBoth(product: int, inverse: int, target: int, step: nat, stepInverse: int, residue: int,
      last: int, t: nat)
    requires t > 1 && step > 0 && step * t > 0
    requires Cong(product * inverse, 1, t) && Cong(target, -inverse, t)
    requires Cong(step * stepInverse, 1, t)
    requires residue == 1 + step * (((target - 1) * stepInverse) % t)
    requires Cong(last, residue, step * t)
    ensures Cong(last, 1, step)
    ensures (last * product) % t == t - 1
  {
    LastModStep(step, t, ((target - 1) * stepInverse) % t, residue, last);
    ResidueModT(target, step, stepInverse, t);
    CongMul(last, -inverse, product, product, t);
    CongSub(0, 0, product * inverse, 1, t);
    assert -inverse * product == 0 - product * inverse;
    CongFromMultiple(-1, t - 1, -1, t);
    SmallMod(t - 1, t);
  }

  /** Two numbers that agree modulo the step and modulo t agree modulo their product. */
  lemma AgreeModuloProduct(w: int, residue: int, step: nat, stepInverse: int, t: nat)
    requires t > 1 && step > 0 && step * t > 0 && Cong(step * stepInverse, 1, t)
    requires Cong(w, residue, step) && Cong(w, residue, t)
    ensures Cong(w, residue, step * t)
  {
    var k := CongQuotient(w, residue, step);
    CongSub(w, residue, residue, residue, t);
    assert w - residue == k * step;
    CongMul(k * step, 0, stepInverse, stepInverse, t);
    assert k * step * stepInverse == k * (step * stepInverse);
    CongMul(k, k, step * stepInverse, 1, t);
    var j := CongQuotient(k, 0, t);
    assert k * step == j * (step * t) by {
      assert (j * t) * step == j * (step * t);
    }
    CongFromMultiple(w, residue, j, step * t);
  }

  /** Conversely, every number that solves both congruences is in the progression of the residue. */
  lemma SolutionsAreResidues(product: int, inverse: int, target: int, step: nat, stepInverse: int, residue: int,
      w: int, t: nat)
    requires t > 1 && step > 0 && step * t > 0
    requires Cong(product * inverse, 1, t) && Cong(target, -inverse, t)
    requires Cong(step * stepInverse, 1, t)
    requires residue == 1 + step * (((target - 1) * stepInverse) % t)
    requires Cong(w, 1, step) && (w * product) % t == t - 1
    ensures Cong(w, residue, step * t)
  {
    ResidueModT(target, step, stepInverse, t);
    NegatedInverse(product, inverse, w, t);
    CongFromMultiple(residue, 1, ((target - 1) * stepInverse) % t, step);
    AgreeModuloProduct(w, residue, step, stepInverse, t);
  }

  lemma NegatedInverse(product: int, inverse: int, w: int, t: nat)
    requires t > 1 && Cong(product * inverse, 1, t) && (w * product) % t == t - 1
    ensures Cong(w, -inverse, t)
  {
    SmallMod(t - 1, t);
    CongFromMultiple(t - 1, -1, 1, t);
    CongMul(w * product, -1, inverse, inverse, t);
    assert w * product * inverse == w * (product * inverse) && -1 * inverse == -inverse;
    CongMul(w, w, product * inverse, 1, t);
  }

  /** t = 1 mod step, so step divides t - 1 and is a unit modulo t. */
  lemma StepInvertible(step: nat, t: nat)
    requires step > 0 && t > 1 && Cong(t, 1, step)
    ensures Gcd(step % t, t) == 1
  {
    var k := CongQuotient(t, 1, step);
    CongMod(step, t);
    assert step * -k == 1 + (-1) * t;
    CongFromMultiple(step * -k, 1, -1, t);
    CongMul(step % t, step, -k, -k, t);
    InvertibleIffCoprime(step % t, -k, t);
  }

  /** The claim in the source that the witnesses decide 64-bit numbers. */
  ghost predicate WitnessesExact() {
    forall n: nat :: n < TWO_64 && PassesTests(n) ==> IsPrime(n)
  }

  lemma {:induction false} ProductCoprime(qs: seq<int>, t: nat)
    requires IsPrime(t) && forall i :: 0 <= i < |qs| ==> IsPrime(qs[i]) && qs[i] != t
    ensures !Divides(t, Product(qs))
  {
    if qs == [] {
      SmallMod(1, t);
    } else {
      var q := qs[|qs| - 1];
      ProductCoprime(qs[..|qs| - 1], t);
      if Divides(t, q) {
        DividesBound(t, q);
        assert false;
      }
      if Divides(t, Product(qs)) {
        PrimeDividesProduct(t, q, Product(qs[..|qs| - 1]));
        assert false;
      }
    }
  }

  lemma ProductInvertible(qs: seq<int>, step: nat, t: nat)
    requires step > 0 && WitnessesExact() && t < TWO_64 && PassesTests(t)
    requires NttBasis(qs, step, t) && forall i :: 0 <= i < |qs| ==> 0 <= qs[i] < TWO_64
    ensures Gcd(Product(qs) % t, t) == 1
  {
    ProductCoprime(qs, t);
    CongMod(Product(qs), t);
    DividesCong(Product(qs), 0, t);
    DividesCong(Product(qs) % t, 0, t);
    PrimeCoprime(t, Product(qs) % t);
  }

  datatype GenerateError = Unsupported | BadModulus | NoPrime | NotInvertible

  datatype RnsParameters = RnsParameters(Q: seq<int>, P: seq<int>)

  ghost predicate Sized(s: seq<int>, bits: nat)
    requires bits > 0
  {
    forall i :: 0 <= i < |s| ==> PowTwo(bits - 1) <= s[i] < PowTwo(bits)
  }

  /** What the returned parameters promise. */
  ghost predicate Aligned(p: RnsParameters, step: nat, qBits: nat, count: nat, pBits: nat, pCount: nat, t: nat)
    requires step > 0 && qBits > 0 && pBits > 0 && t > 0
  {
    && |p.Q| == count && |p.P| == pCount
    && NttBasis(p.Q + p.P, step, t)
    && Sized(p.Q, qBits) && Sized(p.P, pBits)
    && Product(p.Q) % t == t - 1
  }

  lemma {:induction false} PowTwoMonotone(e: nat, f: nat)
    requires e <= f
    ensures PowTwo(e) <= PowTwo(f)
  {
    if e < f {
      PowTwoMonotone(e, f - 1);
    }
  }

  lemma SizedBelow64(s: seq<int>, bits: nat)
    requires 0 < bits <= 61 && Sized(s, bits)
    ensures forall i :: 0 <= i < |s| ==> 0 <= s[i] < TWO_64
  {
    PowTwoMonotone(bits, 64);
    PowTwo64();
  }

  /** Appends `more` primes of the given size that are 1 modulo the step, each the largest left. */
  method AppendPrimes(basis: seq<int>, bits: nat, step: nat, more: nat, t: nat) returns (found: Option<seq<int>>)
    requires bits > 0 && step > 0 && NttBasis(basis, step, t)
    ensures found.Some? ==> |found.value| == more && Sized(found.value, bits) && NttBasis(basis + found.value, step, t)
    ensures found.Some? ==> Greedy(basis, found.value, bits, step, t)
    ensures found.None? ==> forall r :: |r| == more ==> !Greedy(basis, r, bits, step, t)
    ensures found.Some? ==> TakesLargestPrimes(basis, found.value, bits, step, t)
    ensures found.None? ==> forall r :: UnusedPrimes(r, basis, bits, step, t) ==> |r| < more
  {
    var s: seq<int> := [];
    for i := 0 to more
      invariant |s| == i && Sized(s, bits) && NttBasis(basis + s, step, t)
      invariant Greedy(basis, s, bits, step, t)
    {
      var next := FindPrime(bits, step, 1, Elements(basis + s) + {t});
      if next.None? {
        forall r | |r| == more ensures !Greedy(basis, r, bits, step, t) {
          if Greedy(basis, r, bits, step, t) {
            GreedyStuck(basis, s, r, bits, step, t);
          }
        }
        forall r | UnusedPrimes(r, basis, bits, step, t) ensures |r| < more {
          StuckWithoutPrimes(basis, s, r, bits, step, t);
        }
        return None;
      }
      GreedyExtends(basis, s, next.value, bits, step, t);
      ExtendBasis(basis + s, next.value, step, t);
      assert basis + (s + [next.value]) == (basis + s) + [next.value];
      s := s + [next.value];
    }
    GreedyTakesLargest(basis, s, bits, step, t);
    return Some(s);
  }

  lemma ExtendBasis(s: seq<int>, x: int, step: nat, t: nat)
    requires step > 0 && NttBasis(s, step, t)
    requires PassesTests(x) && Cong(x, 1, step) && x !in Elements(s) && x != t
    ensures NttBasis(s + [x], step, t)
  {
    forall i | 0 <= i < |s| ensures s[i] != x {
      assert s[i] in Elements(s);
    }
  }

  lemma CompletedIsInvertible(w: int, product: int, t: nat)
    requires t > 1 && (w * product) % t == t - 1
    ensures Gcd(product % t, t) == 1
  {
    SmallMod(t - 1, t);
    CongFromMultiple(t - 1, -1, 1, t);
    CongMod(product, t);
    CongMul(product % t, product, -w, -w, t);
    CongSub(0, 0, w * product, -1, t);
    assert product * -w == 0 - w * product;
    InvertibleIffCoprime(product % t, -w, t);
  }

  /** The progression searched for the last prime holds exactly the completions. */
  lemma CompletionsAreResidues(qs: seq<int>, inverse: int, target: int, bits: nat, step: nat, stepInverse: int,
      residue: int, w: int, t: nat)
    requires bits > 0 && t > 1 && step > 0 && step * t > 0
    requires Cong(Product(qs) * inverse, 1, t) && Cong(target, -inverse, t)
    requires Cong(step * stepInverse, 1, t)
    requires residue == 1 + step * (((target - 1) * stepInverse) % t)
    ensures Admissible(w, bits, step * t, residue, Elements(qs) + {t}) <==> Completes(w, bits, step, qs, t)
  {
    if Cong(w, residue, step * t) {
      ResidueSolvesBoth(Product(qs), inverse, target, step, stepInverse, residue, w, t);
    }
    if Cong(w, 1, step) && (w * Product(qs)) % t == t - 1 {
      SolutionsAreResidues(Product(qs), inverse, target, step, stepInverse, residue, w, t);
    }
  }

  /** A number of the size, 1 modulo the step and not used, that makes the product of qs -1 modulo t. */
  predicate WouldComplete(w: int, bits: nat, step: nat, qs: seq<int>, t: int)
    requires step > 0 && bits > 0 && t > 0
  {
    && PowTwo(bits - 1) <= w < PowTwo(bits) && Cong(w, 1, step) && w !in qs && w != t
    && (w * Product(qs)) % t == t - 1
  }

  lemma PrimesComplete(qs: seq<int>, bits: nat, step: nat, t: int)
    requires step > 0 && bits > 0 && t > 0
    ensures forall w :: IsPrime(w) && WouldComplete(w, bits, step, qs, t) ==> Completes(w, bits, step, qs, t)
  {
    forall w | IsPrime(w) && WouldComplete(w, bits, step, qs, t) ensures Completes(w, bits, step, qs, t) {
      PrimeIsUsable(w, bits, step, qs, t);
    }
  }

  /** Completes the Q primes with one that makes their product -1 modulo t. */
  method AlignProduct(qs: seq<int>, qBits: nat, step: nat, t: nat) returns (r: Result<seq<int>, GenerateError>)
    requires 0 < qBits <= 61 && step > 0 && t > 1 && Cong(t, 1, step) && PassesTests(t)
    requires Sized(qs, qBits) && NttBasis(qs, step, t)
    ensures r.Ok? ==> |r.value| == |qs| + 1 && Sized(r.value, qBits) && NttBasis(r.value, step, t)
    ensures r.Ok? ==> Product(r.value) % t == t - 1
    ensures r.Ok? ==> r.value[..|qs|] == qs && LargestCompletion(r.value[|qs|], qBits, step, qs, t)
    ensures r.Err? ==> forall w :: !Completes(w, qBits, step, qs, t)
    ensures forall w :: IsPrime(w) && WouldComplete(w, qBits, step, qs, t) ==> r.Ok? && w <= r.value[|qs|]
    ensures r.Ok? || r == Err(NoPrime) || r == Err(NotInvertible)
    ensures r == Err(NotInvertible) <==> Gcd(Product(qs) % t, t) != 1
    ensures r == Err(NotInvertible) ==> !(WitnessesExact() && t < TWO_64)
  {
    PrimesComplete(qs, qBits, step, t);
    var inverse := PowInverse(Product(qs), t);
    if inverse.None? {
      if WitnessesExact() && t < TWO_64 {
        SizedBelow64(qs, qBits);
        ProductInvertible(qs, step, t);
      }
      forall w ensures !Completes(w, qBits, step, qs, t) {
        if (w * Product(qs)) % t == t - 1 {
          CompletedIsInvertible(w, Product(qs), t);
        }
      }
      return Err(NotInvertible);
    }
    var target := -inverse.value % t;
    CongMod(-inverse.value, t);
    var stepInverse := PowInverse(step, t);
    StepInvertible(step, t);
    var residue := 1 + step * (((target - 1) * stepInverse.value) % t);
    MulMonotone(1, step, 1, t);
    var last := FindPrime(qBits, step * t, residue, Elements(qs) + {t});
    forall w ensures Admissible(w, qBits, step * t, residue, Elements(qs) + {t}) <==> Completes(w, qBits, step, qs, t) {
      CompletionsAreResidues(qs, inverse.value, target, qBits, step, stepInverse.value, residue, w, t);
    }
    if last.None? {
      return Err(NoPrime);
    }
    ProductAppend(qs, last.value);
    ExtendBasis(qs, last.value, step, t);
    return Ok(qs + [last.value]);
  }

  /** The Q primes before the last, the last one and the P primes are each the largest prime left for its place. */
  ghost predicate LargestPrimes(p: RnsParameters, step: nat, qBits: nat, count: nat, pBits: nat, t: int)
    requires step > 0 && qBits > 0 && pBits > 0 && t > 0 && |p.Q| == count > 0
  {
    var first := p.Q[..count - 1];
    && TakesLargestPrimes([], first, qBits, step, t) && TakesLargestPrimes(p.Q, p.P, pBits, step, t)
    && forall w :: IsPrime(w) && WouldComplete(w, qBits, step, first, t) ==> w <= p.Q[count - 1]
  }

  lemma GeneratedTakesLargest(p: RnsParameters, step: nat, qBits: nat, count: nat, pBits: nat, pCount: int, t: int)
    requires step > 0 && qBits > 0 && pBits > 0 && count > 0 && t > 0
    requires Generated(p, step, qBits, count, pBits, pCount, t)
    ensures LargestPrimes(p, step, qBits, count, pBits, t)
  {
    GreedyTakesLargest([], p.Q[..count - 1], qBits, step, t);
    GreedyTakesLargest(p.Q, p.P, pBits, step, t);
    PrimesComplete(p.Q[..count - 1], qBits, step, t);
  }

  /** The promised sizes and residues, written out. */
  lemma SearchMeaning(p: RnsParameters, step: nat, qBits: nat, count: nat, pBits: nat, pCount: nat, t: nat)
    requires step > 1 && qBits > 0 && pBits > 0 && t > 0 && count > 0
    requires Aligned(p, step, qBits, count, pBits, pCount, t) && Generated(p, step, qBits, count, pBits, pCount, t)
    ensures LargestPrimes(p, step, qBits, count, pBits, t)
    ensures forall i :: 0 <= i < |p.Q| ==> PowTwo(qBits - 1) <= p.Q[i] < PowTwo(qBits) && p.Q[i] % step == 1
    ensures forall i :: 0 <= i < |p.P| ==> PowTwo(pBits - 1) <= p.P[i] < PowTwo(pBits) && p.P[i] % step == 1
  {
    GeneratedTakesLargest(p, step, qBits, count, pBits, pCount, t);
    var all := p.Q + p.P;
    BasisResidues(all, step, t);
    assert forall i :: 0 <= i < |p.Q| ==> all[i] == p.Q[i];
    assert forall i :: 0 <= i < |p.P| ==> all[|p.Q| + i] == p.P[i];
  }

  lemma BasisResidues(s: seq<int>, step: nat, t: int)
    requires step > 1 && NttBasis(s, step, t)
    ensures forall i :: 0 <= i < |s| ==> s[i] % step == 1
  {
    SmallMod(1, step);
  }

  /** The searches for the Q primes. */
  method SearchQ(step: nat, qBits: nat, count: nat, t: nat) returns (r: Result<seq<int>, GenerateError>)
    requires step > 1 && 0 < qBits <= 61 && count > 0 && t > 1 && PassesTests(t) && Cong(t, 1, step)
    ensures r.Ok? ==> GeneratedQ(r.value, step, qBits, count, t) && !ProductStuck(step, qBits, count, t)
    ensures r.Ok? ==> Sized(r.value, qBits) && NttBasis(r.value, step, t) && Product(r.value) % t == t - 1
    ensures r.Err? ==> !HasQ(step, qBits, count, t) && (r.error == NoPrime || r.error == NotInvertible)
    ensures r == Err(NotInvertible) <==> ProductStuck(step, qBits, count, t)
    ensures r == Err(NotInvertible) ==> !(WitnessesExact() && t < TWO_64)
  {
    var first := AppendPrimes([], qBits, step, count - 1, t);
    if first.None? {
      NoGreedy(step, qBits, count, t);
      return Err(NoPrime);
    }
    assert [] + first.value == first.value;
    StuckOnlyAt(first.value, step, qBits, count, t);
    r := AlignProduct(first.value, qBits, step, t);
    if r.Err? {
      NoCompletion(first.value, step, qBits, count, t);
    } else {
      assert GeneratedQ(r.value, step, qBits, count, t);
    }
  }

  /** The prime searches of generate, once its arguments are checked. */
  method SearchPrimes(step: nat, qBits: nat, count: nat, pBits: nat, t: nat, pCount: int)
    returns (r: Result<RnsParameters, GenerateError>)
    requires step > 1 && 0 < qBits <= 61 && 0 < pBits && count > 0
    requires t > 1 && PassesTests(t) && Cong(t, 1, step)
    ensures r.Ok? ==> 1 <= pCount <= 4 && Aligned(r.value, step, qBits, count, pBits, pCount, t)
    ensures r.Ok? ==> Generated(r.value, step, qBits, count, pBits, pCount, t)
    ensures r.Ok? ==> LargestPrimes(r.value, step, qBits, count, pBits, t)
    ensures r.Ok? ==> forall i :: 0 <= i < count ==>
      PowTwo(qBits - 1) <= r.value.Q[i] < PowTwo(qBits) && r.value.Q[i] % step == 1
    ensures r.Ok? ==> forall i :: 0 <= i < pCount ==>
      PowTwo(pBits - 1) <= r.value.P[i] < PowTwo(pBits) && r.value.P[i] % step == 1
    ensures 1 <= pCount <= 4 && HasResult(step, qBits, count, pBits, pCount, t) ==> r.Ok?
    ensures r == Err(Unsupported) <==> !(1 <= pCount <= 4) && HasQ(step, qBits, count, t)
    ensures r == Err(NotInvertible) <==> ProductStuck(step, qBits, count, t)
    ensures r == Err(NoPrime) <==>
              && !ProductStuck(step, qBits, count, t)
              && (!HasQ(step, qBits, count, t)
                  || (1 <= pCount <= 4 && !HasResult(step, qBits, count, pBits, pCount, t)))
    ensures r != Err(BadModulus)
    ensures r == Err(NotInvertible) ==> !(WitnessesExact() && t < TWO_64)
  {
    var q := SearchQ(step, qBits, count, t);
    if q.Err? {
      return Err(q.error);
    }
    if !(1 <= pCount <= 4) {
      return Err(Unsupported);
    }
    var ps := AppendPrimes(q.value, pBits, step, pCount, t);
    if ps.None? {
      NoSpecialPrimes(q.value, step, qBits, count, pBits, pCount, t);
      return Err(NoPrime);
    }
    var found := RnsParameters(q.value, ps.value);
    assert Generated(found, step, qBits, count, pBits, pCount, t);
    SearchMeaning(found, step, qBits, count, pBits, pCount, t);
    return Ok(found);
  }

  predicate SupportedSizes(logN: int, qBits: int, count: int, pBits: int) {
    4 <= logN <= 20 && 4 <= count <= 32 && 20 <= qBits <= 60 && 20 <= pBits <= 61
  }

  /** The arguments pass the checks that come before the searches. */
  ghost predicate Accepted(logN: int, qBits: int, count: int, pBits: int, t: int) {
    SupportedSizes(logN, qBits, count, pBits) && PassesTests(t) && Cong(t, 1, 2 * PowTwo(logN))
  }

  /** generate_aligned_parameters.py generate: the result or, of the errors, the one whose condition holds. */
  method Generate(logN: int, qBits: int, count: int, pBits: int, t: int, pCount: int)
    returns (r: Result<RnsParameters, GenerateError>)
    ensures r.Ok? ==>
              && Accepted(logN, qBits, count, pBits, t) && 1 <= pCount <= 4
              && Aligned(r.value, 2 * PowTwo(logN), qBits, count, pBits, pCount, t)
              && Generated(r.value, 2 * PowTwo(logN), qBits, count, pBits, pCount, t)
    ensures Accepted(logN, qBits, count, pBits, t) && 1 <= pCount <= 4 ==>
              HasResult(2 * PowTwo(logN), qBits, count, pBits, pCount, t) ==> r.Ok?
    ensures r == Err(BadModulus) <==>
              SupportedSizes(logN, qBits, count, pBits) && !Accepted(logN, qBits, count, pBits, t)
    ensures r == Err(Unsupported) <==>
              || !SupportedSizes(logN, qBits, count, pBits)
              || (&& Accepted(logN, qBits, count, pBits, t) && !(1 <= pCount <= 4)
                  && HasQ(2 * PowTwo(logN), qBits, count, t))
    ensures r == Err(NotInvertible) <==>
              Accepted(logN, qBits, count, pBits, t) && ProductStuck(2 * PowTwo(logN), qBits, count, t)
    ensures r == Err(NotInvertible) ==> !(WitnessesExact() && t < TWO_64)
    ensures r == Err(NoPrime) <==>
              && Accepted(logN, qBits, count, pBits, t) && !ProductStuck(2 * PowTwo(logN), qBits, count, t)
              && (|| !HasQ(2 * PowTwo(logN), qBits, count, t)
                  || (1 <= pCount <= 4 && !HasResult(2 * PowTwo(logN), qBits, count, pBits, pCount, t)))
    ensures !(4 <= logN <= 20 && 4 <= count <= 32 && 20 <= qBits <= 60 && 20 <= pBits <= 61) ==> r == Err(Unsupported)
    ensures 4 <= logN <= 20 && 4 <= count <= 32 && 20 <= qBits <= 60 && 20 <= pBits <= 61 ==>
              && (t % (2 * PowTwo(logN)) != 1 ==> r == Err(BadModulus))
              && (IsPrime(t) && t % (2 * PowTwo(logN)) == 1 ==> r != Err(BadModulus))
    ensures r.Ok? ==>
              && 4 <= logN <= 20 && 4 <= count <= 32 && 20 <= qBits <= 60 && 20 <= pBits <= 61
              && |r.value.Q| == count && |r.value.P| == pCount && Product(r.value.Q) % t == t - 1
              && (forall i :: 0 <= i < count ==>
                    PowTwo(qBits - 1) <= r.value.Q[i] < PowTwo(qBits) && r.value.Q[i] % (2 * PowTwo(logN)) == 1)
              && (forall i :: 0 <= i < pCount ==>
                    PowTwo(pBits - 1) <= r.value.P[i] < PowTwo(pBits) && r.value.P[i] % (2 * PowTwo(logN)) == 1)
              && LargestPrimes(r.value, 2 * PowTwo(logN), qBits, count, pBits, t)
  {
    if IsPrime(t) {
      PrimePassesTests(t);
    }
    if !(4 <= logN <= 20) || !(4 <= count <= 32) {
      r := Err(Unsupported);
    } else if !(20 <= qBits <= 60) || !(20 <= pBits <= 61) {
      r := Err(Unsupported);
    } else {
      var step := 2 * PowTwo(logN);
      SmallMod(1, step);
      var tPassed := Prime(t);
      DividesCong(t, 1, step);
      if !tPassed || (t - 1) % step != 0 {
        r := Err(BadModulus);
      } else {
        r := SearchPrimes(step, qBits, count, pBits, t, pCount);
      }
    }
  }

  // ------------------------------------------- helpers.go pickPlaintextModulus

  /** NTT-friendly candidates: 1 modulo 2N, above it, and at least n. */
  ghost predicate ModulusCandidate(p: int, n: nat, twoN: nat, isPrime: int -> bool)
    requires twoN > 0
  {
    p > twoN && p >= n && Cong(p, 1, twoN) && isPrime(p)
  }

  ghost predicate BelowCandidates(p: int, n: nat, twoN: nat, isPrime: int -> bool)
    requires twoN > 0
  {
    forall w :: ModulusCandidate(w, n, twoN, isPrime) ==> p <= w
  }

  /**
   * The smallest candidate. The ring library's primality test is a parameter; a
   * candidate that fits in a uint64 bounds the search, so that p never wraps.
   */
  method PickPlaintextModulus(n: nat, logN: nat, isPrime: int -> bool, ghost bound: int) returns (p: nat)
    requires ModulusCandidate(bound, n, PowTwo(logN + 1), isPrime) && bound < TWO_64
    ensures ModulusCandidate(p, n, PowTwo(logN + 1), isPrime) && p < TWO_64
    ensures BelowCandidates(p, n, PowTwo(logN + 1), isPrime)
    ensures p > PowTwo(logN + 1) && p >= n && p % PowTwo(logN + 1) == 1 && isPrime(p)
    ensures forall w: nat :: w > 1 && w >= n && w % PowTwo(logN + 1) == 1 && isPrime(w) ==> p <= w
  {
    var twoN := PowTwo(logN + 1);
    SmallMod(1, twoN);
    forall w: nat | w > 1 && w >= n && w % twoN == 1 && isPrime(w) ensures ModulusCandidate(w, n, twoN, isPrime) {
      if w <= twoN {
        SmallResidue(w, twoN);
      }
    }
    p := twoN + 1;
    CongFromMultiple(p, 1, 1, twoN);
    while p < n
      invariant p > twoN && Cong(p, 1, twoN)
      invariant BelowCandidates(p, n, twoN, isPrime)
    {
      StepUp(n, twoN, isPrime, p);
      p := p + twoN;
    }
    while !isPrime(p)
      invariant p > twoN && p >= n && Cong(p, 1, twoN)
      invariant BelowCandidates(p, n, twoN, isPrime)
      decreases bound - p
    {
      StepUp(n, twoN, isPrime, p);
      p := p + twoN;
    }
  }

  lemma SmallResidue(w: nat, m: nat)
    requires 1 < w <= m && m > 1
    ensures w % m != 1
  {
    if w < m {
      SmallMod(w, m);
    } else {
      DivModUnique(w, 1, 0, m);
    }
  }

  lemma StepUp(n: nat, twoN: nat, isPrime: int -> bool, p: int)
    requires twoN > 0 && Cong(p, 1, twoN) && !(p >= n && isPrime(p))
    requires BelowCandidates(p, n, twoN, isPrime)
    ensures Cong(p + twoN, 1, twoN)
    ensures BelowCandidates(p + twoN, n, twoN, isPrime)
  {
    CongFromMultiple(p + twoN, p, 1, twoN);
    forall w | ModulusCandidate(w, n, twoN, isPrime) ensures p + twoN <= w {
      if w < p + twoN {
        SameClassApart(w, p, twoN);
      }
    }
  }
}
