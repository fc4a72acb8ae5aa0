/**
 * The echo as an affine recurrence. A segment (a, b, c, d) stands for the update
 * u' = a*u + b, total' = total + c*u + d; composing segments in any grouping gives
 * the same totals as running the recurrence period by period.
 */
module EchoAlgebra {
  import opened BalancedTree
  import opened Bgv

  datatype Segment<V> = Segment(a: V, b: V, c: V, d: V)

  /** The composition circuit of newPeriodicEchoState, over any carrier. */
  function Compose<V>(mul: (V, V) -> V, add: (V, V) -> V, l: Segment<V>, r: Segment<V>): Segment<V> {
    Segment(
      mul(r.a, l.a),
      add(mul(r.a, l.b), r.b),
      add(l.c, mul(r.c, l.a)),
      add(add(l.d, r.d), mul(r.c, l.b)))
  }

  function Times(x: int, y: int): int { x * y }

  function Added(x: int, y: int): int { x + y }

  /** A segment for every block and slot. */
  type SegmentMap = (nat, nat) -> Segment<int>

  function ComposeMaps(l: SegmentMap, r: SegmentMap): SegmentMap {
    (i: nat, s: nat) => Compose(Times, Added, l(i, s), r(i, s))
  }

  /** The slot values of one closed period: payloads x, masks z and logical ranges r. */
  datatype Period = Period(x: seq<seq<int>>, z: seq<seq<int>>, r: seq<seq<int>>)

  function At(m: seq<seq<int>>, i: nat, s: nat): int {
    if i < |m| && s < |m[i]| then m[i][s] else 0
  }

  function Leaf(p: Period): SegmentMap {
    (i: nat, s: nat) =>
      Segment(At(p.r, i, s) - At(p.z, i, s), At(p.x, i, s) * At(p.z, i, s),
              At(p.r, i, s) - At(p.z, i, s), At(p.x, i, s) * At(p.z, i, s))
  }

  function Leaves(h: seq<Period>): seq<SegmentMap> {
    seq(|h|, p requires 0 <= p < |h| => Leaf(h[p]))
  }

  // ---------------------------------------------- segments with their depths

  function DepthOfMul(x: int, y: int): int { Max(x, y) + 1 }

  function DepthOfAdd(x: int, y: int): int { Max(x, y) }

  function ComposeDepths(l: Segment<int>, r: Segment<int>): Segment<int> {
    Compose(DepthOfMul, DepthOfAdd, l, r)
  }

  /** A leaf's complement needs no ciphertext multiplication, its gated payload one. */
  const LEAF_DEPTHS := Segment(0, 1, 0, 1)

  /** A segment's coefficients together with the multiplication depths of its ciphertexts. */
  datatype EchoNode = EchoNode(coefficients: SegmentMap, depths: Segment<int>)

  function ComposeNodes(l: EchoNode, r: EchoNode): EchoNode {
    EchoNode(ComposeMaps(l.coefficients, r.coefficients), ComposeDepths(l.depths, r.depths))
  }

  function LeafNode(p: Period): EchoNode {
    EchoNode(Leaf(p), LEAF_DEPTHS)
  }

  function LeafNodes(h: seq<Period>): seq<EchoNode> {
    seq(|h|, p requires 0 <= p < |h| => LeafNode(h[p]))
  }

  function LeafDepths(periods: nat): seq<Segment<int>> {
    seq(periods, _ => LEAF_DEPTHS)
  }

  /** A node's coefficients and depths are reduced side by side. */
  lemma NodesReduce(h: seq<Period>, lo: nat, hi: nat)
    requires lo <= hi < |h|
    ensures var node := ReduceRange(LeafNodes(h), ComposeNodes, lo, hi);
      && node.coefficients == ReduceRange(Leaves(h), ComposeMaps, lo, hi)
      && node.depths == ReduceRange(LeafDepths(|h|), ComposeDepths, lo, hi)
  {
    ReduceProjects(LeafNodes(h), ComposeNodes, (n: EchoNode) => n.coefficients, Leaves(h), ComposeMaps, lo, hi);
    ReduceProjects(LeafNodes(h), ComposeNodes, (n: EchoNode) => n.depths, LeafDepths(|h|), ComposeDepths, lo, hi);
  }

  /** The recurrence u = u*(r - z) + x*z after m periods, for arbitrary masks. */
  function EchoValue(h: seq<Period>, i: nat, s: nat, m: nat): int
    requires m <= |h|
  {
    if m == 0 then 0
    else
      var p := h[m - 1];
      EchoValue(h, i, s, m - 1) * (At(p.r, i, s) - At(p.z, i, s)) + At(p.x, i, s) * At(p.z, i, s)
  }

  /** The running total of the recurrence. */
  function EchoSum(h: seq<Period>, i: nat, s: nat, m: nat): int
    requires m <= |h|
  {
    if m == 0 then 0 else EchoSum(h, i, s, m - 1) + EchoValue(h, i, s, m)
  }

  lemma {:induction false} EchoPrefix(h: seq<Period>, p: Period, i: nat, s: nat, m: nat)
    requires m <= |h|
    ensures EchoValue(h + [p], i, s, m) == EchoValue(h, i, s, m)
    ensures EchoSum(h + [p], i, s, m) == EchoSum(h, i, s, m)
  {
    if m > 0 {
      EchoPrefix(h, p, i, s, m - 1);
    }
  }

  /** What a segment does to a value and a total. */
  function Act(g: Segment<int>, u: int, total: int): (int, int) {
    (g.a * u + g.b, total + g.c * u + g.d)
  }

  lemma ComposeActs(l: Segment<int>, r: Segment<int>, u: int, total: int)
    ensures Act(Compose(Times, Added, l, r), u, total) == Act(r, Act(l, u, total).0, Act(l, u, total).1)
  {
    var g := Compose(Times, Added, l, r);
    assert g.a * u + g.b == r.a * (l.a * u + l.b) + r.b by {
      assert r.a * (l.a * u + l.b) == (r.a * l.a) * u + r.a * l.b;
    }
    assert g.c * u == l.c * u + (r.c * l.a) * u by {
      assert g.c == l.c + r.c * l.a;
    }
    assert r.c * (l.a * u + l.b) == (r.c * l.a) * u + r.c * l.b;
  }

  /** The value in force and the running total after m periods. */
  function After(h: seq<Period>, i: nat, s: nat, m: nat): (int, int)
    requires m <= |h|
  {
    (EchoValue(h, i, s, m), EchoSum(h, i, s, m))
  }

  ghost predicate Runs(g: Segment<int>, start: (int, int), end: (int, int)) {
    Act(g, start.0, start.1) == end
  }

  lemma LeafRuns(h: seq<Period>, m: nat, i: nat, s: nat)
    requires m < |h|
    ensures Runs(Leaf(h[m])(i, s), After(h, i, s, m), After(h, i, s, m + 1))
  {
  }

  lemma JoinRuns(l: SegmentMap, r: SegmentMap, i: nat, s: nat, start: (int, int), middle: (int, int), end: (int, int))
    requires Runs(l(i, s), start, middle) && Runs(r(i, s), middle, end)
    ensures Runs(ComposeMaps(l, r)(i, s), start, end)
  {
    ComposeActs(l(i, s), r(i, s), start.0, start.1);
  }

  /** A subtree over the periods lo..hi runs the recurrence through those periods. */
  lemma {:induction false} SubtreeRunsPeriods(h: seq<Period>, lo: nat, hi: nat, i: nat, s: nat)
    requires lo <= hi < |h|
    ensures Runs(ReduceRange(Leaves(h), ComposeMaps, lo, hi)(i, s), After(h, i, s, lo), After(h, i, s, hi + 1))
    decreases hi - lo
  {
    if lo == hi {
      assert ReduceRange(Leaves(h), ComposeMaps, lo, hi) == Leaf(h[lo]);
      LeafRuns(h, lo, i, s);
    } else {
      var mid := (lo + hi) / 2;
      SubtreeRunsPeriods(h, lo, mid, i, s);
      SubtreeRunsPeriods(h, mid + 1, hi, i, s);
      JoinRuns(ReduceRange(Leaves(h), ComposeMaps, lo, mid), ReduceRange(Leaves(h), ComposeMaps, mid + 1, hi), i, s,
               After(h, i, s, lo), After(h, i, s, mid + 1), After(h, i, s, hi + 1));
    }
  }

  /** The d component of the tree root is the sequential total, for all masks and payloads. */
  lemma RootIsEchoSum(h: seq<Period>, i: nat, s: nat)
    requires |h| > 0
    ensures BalancedReduce(Leaves(h), ComposeMaps)(i, s).d == EchoSum(h, i, s, |h|)
  {
    ActFromZero(ReduceRange(Leaves(h), ComposeMaps, 0, |h| - 1)(i, s));
    SubtreeRunsPeriods(h, 0, |h| - 1, i, s);
  }

  lemma ActFromZero(g: Segment<int>)
    ensures Act(g, 0, 0) == (g.b, g.d)
  {
  }

  // ------------------------------------------- the echo without its recurrence

  /** What a value keeps through the periods lo..hi-1: the product of their complements r - z. */
  function Carry(h: seq<Period>, i: nat, s: nat, lo: nat, hi: nat): int
    requires lo <= hi <= |h|
    decreases hi - lo
  {
    if lo == hi then 1 else Carry(h, i, s, lo, hi - 1) * (At(h[hi - 1].r, i, s) - At(h[hi - 1].z, i, s))
  }

  /** The masked payloads of the first n periods, each carried to the end of period m. */
  function CarriedPayloads(h: seq<Period>, i: nat, s: nat, m: nat, n: nat): int
    requires n <= m <= |h|
  {
    if n == 0 then 0
    else CarriedPayloads(h, i, s, m, n - 1) + At(h[n - 1].x, i, s) * At(h[n - 1].z, i, s) * Carry(h, i, s, n, m)
  }

  /** Over the periods p < m, everything carried from the periods j <= p to p. */
  function CarriedTotal(h: seq<Period>, i: nat, s: nat, m: nat): int
    requires m <= |h|
  {
    if m == 0 then 0 else CarriedTotal(h, i, s, m - 1) + CarriedPayloads(h, i, s, m, m)
  }

  lemma {:induction false} CarriedOnePeriodMore(h: seq<Period>, i: nat, s: nat, m: nat, n: nat)
    requires n <= m < |h|
    ensures CarriedPayloads(h, i, s, m + 1, n)
         == CarriedPayloads(h, i, s, m, n) * (At(h[m].r, i, s) - At(h[m].z, i, s))
  {
    if n > 0 {
      var x, c := CarriedPayloads(h, i, s, m, n - 1), Carry(h, i, s, n, m);
      var y := At(h[n - 1].x, i, s) * At(h[n - 1].z, i, s);
      var keep := At(h[m].r, i, s) - At(h[m].z, i, s);
      CarriedOnePeriodMore(h, i, s, m, n - 1);
      assert Carry(h, i, s, n, m + 1) == c * keep;
      assert (x + y * c) * keep == x * keep + y * (c * keep);
    }
  }

  /** The totals of arbitrary payloads, masks and ranges in closed form. */
  lemma {:induction false} EchoIsCarried(h: seq<Period>, i: nat, s: nat, m: nat)
    requires m <= |h|
    ensures EchoValue(h, i, s, m) == CarriedPayloads(h, i, s, m, m)
    ensures EchoSum(h, i, s, m) == CarriedTotal(h, i, s, m)
  {
    if m > 0 {
      EchoIsCarried(h, i, s, m - 1);
      CarriedOnePeriodMore(h, i, s, m - 1, m - 1);
      assert Carry(h, i, s, m, m) == 1;
    }
  }

  /** The total of one period is its gated payload. */
  lemma OnePeriodEcho(h: seq<Period>, i: nat, s: nat)
    requires |h| == 1
    ensures CarriedTotal(h, i, s, 1) == At(h[0].x, i, s) * At(h[0].z, i, s)
  {
    assert CarriedTotal(h, i, s, 0) == 0 && CarriedPayloads(h, i, s, 1, 0) == 0 && Carry(h, i, s, 1, 1) == 1;
  }

  /** A payload counts only where its mask is not zero. */
  lemma {:induction false} MaskedPayloadsDecide(g: seq<Period>, h: seq<Period>, i: nat, s: nat, m: nat)
    requires m <= |g| == |h|
    requires forall p :: 0 <= p < m ==> At(g[p].z, i, s) == At(h[p].z, i, s) && At(g[p].r, i, s) == At(h[p].r, i, s)
    requires forall p :: 0 <= p < m && At(g[p].z, i, s) != 0 ==> At(g[p].x, i, s) == At(h[p].x, i, s)
    ensures EchoValue(g, i, s, m) == EchoValue(h, i, s, m) && EchoSum(g, i, s, m) == EchoSum(h, i, s, m)
  {
    if m > 0 {
      MaskedPayloadsDecide(g, h, i, s, m - 1);
      var z := At(g[m - 1].z, i, s);
      if z == 0 {
        assert At(g[m - 1].x, i, s) * z == 0 == At(h[m - 1].x, i, s) * z;
      }
    }
  }

  /** Inside the ranges, a payload with mask 1 stays in force until the next mask that is not zero. */
  lemma {:induction false} LastMaskedPayload(h: seq<Period>, i: nat, s: nat, j: nat, m: nat)
    requires j < m <= |h| && At(h[j].z, i, s) == 1 == At(h[j].r, i, s)
    requires forall p :: j < p < m ==> At(h[p].z, i, s) == 0 && At(h[p].r, i, s) == 1
    ensures EchoValue(h, i, s, m) == At(h[j].x, i, s)
  {
    if j < m - 1 {
      LastMaskedPayload(h, i, s, j, m - 1);
    }
  }

  /** Without masks nothing is ever in force, whatever the payloads. */
  lemma {:induction false} UnmaskedIsZero(h: seq<Period>, i: nat, s: nat, m: nat)
    requires m <= |h| && forall p :: 0 <= p < m ==> At(h[p].z, i, s) == 0
    ensures EchoValue(h, i, s, m) == 0 && EchoSum(h, i, s, m) == 0
  {
    if m > 0 {
      UnmaskedIsZero(h, i, s, m - 1);
    }
  }
}
