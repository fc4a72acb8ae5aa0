/**
 * The encrypted echo (periodic_echo.go newPeriodicEchoState, ClosePeriod, Totals) on
 * ciphertext objects. The only objects the state changes in place are its own running
 * totals; supplied inputs and masks, and the ciphertexts that segments share, are
 * never touched.
 */
module PeriodicEcho {
  import opened Modular
  import opened Wrappers
  import opened Slots
  import opened Bgv
  import opened BalancedTree
  import opened EchoAlgebra

  datatype EchoMode = Tree | Sequential

  // ------------------------------------------------ slot vectors of segments

  function SegmentVectors(val: EchoNode, i: nat, n: nat): Segment<seq<int>> {
    var m := val.coefficients;
    Segment(
      seq(n, s requires 0 <= s => m(i, s).a),
      seq(n, s requires 0 <= s => m(i, s).b),
      seq(n, s requires 0 <= s => m(i, s).c),
      seq(n, s requires 0 <= s => m(i, s).d))
  }

  function ValueVector(h: seq<Period>, i: nat, n: nat): seq<int> {
    seq(n, s requires 0 <= s => EchoValue(h, i, s, |h|))
  }

  function SumVector(h: seq<Period>, i: nat, n: nat): seq<int> {
    seq(n, s requires 0 <= s => EchoSum(h, i, s, |h|))
  }

  lemma ComposeVectors(l: EchoNode, r: EchoNode, i: nat, n: nat)
    ensures var lv, rv := SegmentVectors(l, i, n), SegmentVectors(r, i, n);
      SegmentVectors(ComposeNodes(l, r), i, n) == Segment(
        Hadamard(rv.a, lv.a),
        Plus(Hadamard(rv.a, lv.b), rv.b),
        Plus(lv.c, Hadamard(rv.c, lv.a)),
        Plus(Plus(lv.d, rv.d), Hadamard(rv.c, lv.b)))
  {
    var g, lv, rv := SegmentVectors(ComposeNodes(l, r), i, n), SegmentVectors(l, i, n), SegmentVectors(r, i, n);
    forall s: nat | s < n
      ensures g.a[s] == rv.a[s] * lv.a[s] && g.b[s] == rv.a[s] * lv.b[s] + rv.b[s]
      ensures g.c[s] == lv.c[s] + rv.c[s] * lv.a[s]
      ensures g.d[s] == lv.d[s] + rv.d[s] + rv.c[s] * lv.b[s]
    {
      assert ComposeNodes(l, r).coefficients(i, s) == Compose(Times, Added, l.coefficients(i, s), r.coefficients(i, s));
    }
    assert g.a == Hadamard(rv.a, lv.a);
    assert g.b == Plus(Hadamard(rv.a, lv.b), rv.b);
    assert g.c == Plus(lv.c, Hadamard(rv.c, lv.a));
    assert g.d == Plus(Plus(lv.d, rv.d), Hadamard(rv.c, lv.b));
  }

  /** The frontier's meaning before and after the push of the next period. */
  lemma LeafPushFacts(h: seq<Period>, p: Period, periods: nat)
    requires |h| < periods
    ensures var before := Completed(LeafNodes(h), ComposeNodes, 0, periods - 1, |h|);
      && Merges(0, periods - 1, |h|) <= |before|
      && MergeTop(before + [LeafNode(p)], ComposeNodes, Merges(0, periods - 1, |h|))
           == Completed(LeafNodes(h + [p]), ComposeNodes, 0, periods - 1, |h| + 1)
  {
    PushFacts(LeafNodes(h), LeafNode(p), ComposeNodes, periods);
    assert LeafNodes(h) + [LeafNode(p)] == LeafNodes(h + [p]);
  }

  /** The segment's ciphertexts belong to the state and have the node's coefficients and depths. */
  ghost predicate HoldsSegment(ev: Evaluator, seg: Segment<Ciphertext>, val: EchoNode, i: nat, owned: set<Ciphertext>)
    requires ev.Valid()
    reads owned
  {
    var v, depths := SegmentVectors(val, i, 2 * ev.cols), val.depths;
    && seg.a in owned && seg.b in owned && seg.c in owned && seg.d in owned
    && ev.Holds(seg.a, v.a) && ev.Holds(seg.b, v.b) && ev.Holds(seg.c, v.c) && ev.Holds(seg.d, v.d)
    && seg.a.depth == depths.a && seg.b.depth == depths.b && seg.c.depth == depths.c && seg.d.depth == depths.d
  }

  ghost predicate HoldsBlocks(ev: Evaluator, segs: seq<Segment<Ciphertext>>, val: EchoNode, blocks: nat,
      owned: set<Ciphertext>)
    requires ev.Valid()
    reads owned
  {
    && |segs| == blocks
    && forall i :: 0 <= i < blocks ==> HoldsSegment(ev, segs[i], val, i, owned)
  }

  ghost predicate HoldsFrontier(ev: Evaluator, frontier: seq<seq<Segment<Ciphertext>>>, vals: seq<EchoNode>,
      blocks: nat, owned: set<Ciphertext>)
    requires ev.Valid()
    reads owned
  {
    && |frontier| == |vals|
    && forall f :: 0 <= f < |frontier| ==> HoldsBlocks(ev, frontier[f], vals[f], blocks, owned)
  }

  /** The period's values are those that the supplied ciphertexts, sums of fresh encryptions, hold. */
  ghost predicate Supplied(ev: Evaluator, blocks: nat, inputs: seq<Ciphertext>, masks: seq<Ciphertext>,
      ranges: seq<seq<int>>, p: Period)
    requires ev.Valid()
    reads inputs, masks
  {
    && |inputs| == |masks| == |ranges| == |p.x| == |p.z| == blocks && p.r == ranges
    && AllAtDepth(inputs, 0) && AllAtDepth(masks, 0)
    && forall i :: 0 <= i < blocks ==>
         && |p.x[i]| == |p.z[i]| == |p.r[i]| == 2 * ev.cols
         && ev.Holds(inputs[i], p.x[i]) && ev.Holds(masks[i], p.z[i])
  }

  /** Ciphertexts that a state does not own. */
  ghost predicate Foreign(cts: seq<Ciphertext>, owned: set<Ciphertext>) {
    forall i :: 0 <= i < |cts| ==> cts[i] !in owned
  }

  // ------------------------------------------------------ operation counters

  /** Ciphertext multiplications of the transition of period m, after its gating. */
  function TransitionMuls(mode: EchoMode, periods: nat, blocks: nat, m: nat): nat
    requires m < periods
  {
    match mode
    case Tree => Merges(0, periods - 1, m) * (4 * blocks)
    case Sequential => if m > 0 then blocks else 0
  }

  /** Ciphertext-ciphertext additions of the transition of period m. */
  function TransitionAdds(mode: EchoMode, periods: nat, blocks: nat, m: nat): nat
    requires m < periods
  {
    match mode
    case Tree => Merges(0, periods - 1, m) * (4 * blocks)
    case Sequential => if m > 0 then 2 * blocks else 0
  }

  /** Ciphertext multiplications of the first m periods of one echo state. */
  function MulsAfter(mode: EchoMode, periods: nat, blocks: nat, m: nat): nat
    requires m <= periods
  {
    if m == 0 then 0
    else MulsAfter(mode, periods, blocks, m - 1) + blocks + TransitionMuls(mode, periods, blocks, m - 1)
  }

  function AddsAfter(mode: EchoMode, periods: nat, blocks: nat, m: nat): nat
    requires m <= periods
  {
    if m == 0 then 0
    else AddsAfter(mode, periods, blocks, m - 1) + TransitionAdds(mode, periods, blocks, m - 1)
  }

  type RefreshPolicy = Option<nat --> bool>

  ghost predicate PolicyDefined(mode: EchoMode, periods: nat, policy: RefreshPolicy) {
    mode == Sequential && policy.Some? ==> forall p: nat :: 0 < p < periods ==> policy.value.requires(p)
  }

  /** Whether the transition of period p is followed by a refresh. */
  ghost predicate RefreshedAt(mode: EchoMode, periods: nat, policy: RefreshPolicy, p: nat)
    requires PolicyDefined(mode, periods, policy) && p < periods
  {
    mode == Sequential && 0 < p && policy.Some? && policy.value(p)
  }

  ghost function RefreshesAfter(mode: EchoMode, periods: nat, policy: RefreshPolicy, blocks: nat, m: nat): nat
    requires PolicyDefined(mode, periods, policy) && m <= periods
  {
    if m == 0 then 0
    else RefreshesAfter(mode, periods, policy, blocks, m - 1)
         + if RefreshedAt(mode, periods, policy, m - 1) then blocks else 0
  }

  // ------------------------------------------------------ multiplication depth

  /** Depth of a sequential value after one more period: a product with a complement, plus a gated payload. */
  function NextDepth(current: int): int {
    DepthOfAdd(DepthOfMul(current, LEAF_DEPTHS.a), LEAF_DEPTHS.b)
  }

  /** Depths of the sequential value in force and running total after m periods. */
  ghost function StateDepths(mode: EchoMode, periods: nat, policy: RefreshPolicy, m: nat): (int, int)
    requires PolicyDefined(mode, periods, policy) && 0 < m <= periods
  {
    if m == 1 then (LEAF_DEPTHS.b, LEAF_DEPTHS.b)
    else
      var before := StateDepths(mode, periods, policy, m - 1);
      var next := NextDepth(before.0);
      (if RefreshedAt(mode, periods, policy, m - 1) then 0 else next, DepthOfAdd(before.1, next))
  }

  /** Depth of the totals of a whole run. */
  ghost function EchoDepth(mode: EchoMode, periods: nat, policy: RefreshPolicy): int
    requires PolicyDefined(mode, periods, policy) && periods > 0
  {
    match mode
    case Tree => BalancedReduce(LeafDepths(periods), ComposeDepths).d
    case Sequential => StateDepths(mode, periods, policy, periods).1
  }

  // --------------------------------------------------------------- the state

  class PeriodicEchoState {
    const ev: Evaluator
    const periods: nat
    const blocks: nat
    const mode: EchoMode
    const shouldRefresh: RefreshPolicy
    var received: nat
    var frontier: seq<seq<Segment<Ciphertext>>>
    var current: seq<Ciphertext>
    var totals: seq<Ciphertext>
    var muls: nat
    var adds: nat
    var refreshes: nat
    ghost var history: seq<Period>
    ghost var owned: set<Ciphertext>

    ghost predicate Config() {
      ev.Valid() && periods > 0 && blocks > 0 && PolicyDefined(mode, periods, shouldRefresh)
    }

    ghost predicate TreeValid()
      requires Config()
      reads this, owned
    {
      && current == [] && totals == []
      && received == |history| <= periods
      && HoldsFrontier(ev, frontier, Completed(LeafNodes(history), ComposeNodes, 0, periods - 1, received), blocks,
                       owned)
    }

    /** Values in force and running totals are held by distinct ciphertexts of the state. */
    ghost predicate Running(values: seq<seq<int>>, sums: seq<seq<int>>)
      requires ev.Valid()
      reads this`current, this`totals, this`owned, owned
    {
      && |current| == |totals| == |values| == |sums| == blocks
      && (forall i :: 0 <= i < blocks ==> current[i] in owned && totals[i] in owned)
      && (forall i, j :: 0 <= i < blocks && 0 <= j < blocks ==> current[i] != totals[j])
      && (forall i, j :: 0 <= i < j < blocks ==> totals[i] != totals[j])
      && (forall i :: 0 <= i < blocks ==> ev.Holds(current[i], values[i]) && ev.Holds(totals[i], sums[i]))
    }

    ghost predicate Depths(depths: (int, int))
      reads this`current, this`totals, this`owned, owned
    {
      && (forall i :: 0 <= i < |current| ==> current[i] in owned && current[i].depth == depths.0)
      && (forall i :: 0 <= i < |totals| ==> totals[i] in owned && totals[i].depth == depths.1)
    }

    ghost predicate SequentialValid()
      requires Config()
      reads this, owned
    {
      && frontier == [] && received <= periods
      && if received == 0 then current == [] && totals == []
         else Running(Values(history), Sums(history)) && Depths(StateDepths(mode, periods, shouldRefresh, received))
    }

    ghost predicate Counted()
      requires Config()
      reads this
    {
      && received <= periods
      && muls == MulsAfter(mode, periods, blocks, received)
      && adds == AddsAfter(mode, periods, blocks, received)
      && refreshes == RefreshesAfter(mode, periods, shouldRefresh, blocks, received)
    }

    ghost predicate Consistent()
      reads this, owned
    {
      && Config() && received == |history| <= periods
      && (if mode == Tree then TreeValid() else SequentialValid())
    }

    ghost predicate Valid()
      reads this, owned
    {
      Consistent() && Counted()
    }

    constructor (periods: nat, blocks: nat, mode: EchoMode, ev: Evaluator, shouldRefresh: RefreshPolicy)
      requires periods > 0 && blocks > 0 && ev.Valid() && PolicyDefined(mode, periods, shouldRefresh)
      ensures Valid() && history == [] && received == 0 && owned == {} && totals == []
      ensures this.periods == periods && this.blocks == blocks && this.mode == mode
      ensures this.ev == ev && this.shouldRefresh == shouldRefresh
    {
      this.periods, this.blocks, this.mode := periods, blocks, mode;
      this.ev, this.shouldRefresh := ev, shouldRefresh;
      received, frontier, current, totals := 0, [], [], [];
      muls, adds, refreshes := 0, 0, 0;
      history, owned := [], {};
    }

    method Mul(x: Ciphertext, y: Ciphertext, ghost u: seq<int>, ghost v: seq<int>) returns (out: Ciphertext)
      requires ev.Valid() && ev.Holds(x, u) && ev.Holds(y, v)
      modifies this`muls
      ensures fresh(out) && ev.Holds(out, Hadamard(u, v)) && muls == old(muls) + 1
      ensures out.depth == DepthOfMul(x.depth, y.depth)
    {
      muls := muls + 1;
      out := ev.MulRelinNew(x, y, u, v);
    }

    method Add(x: Ciphertext, y: Ciphertext, ghost u: seq<int>, ghost v: seq<int>) returns (out: Ciphertext)
      requires ev.Valid() && ev.Holds(x, u) && ev.Holds(y, v)
      modifies this`adds
      ensures fresh(out) && ev.Holds(out, Plus(u, v)) && adds == old(adds) + 1
      ensures out.depth == DepthOfAdd(x.depth, y.depth)
    {
      adds := adds + 1;
      out := ev.AddNew(x, y, u, v);
    }

    /** The composition of one block: four multiplications and four additions. */
    method CombineBlock(l: Segment<Ciphertext>, r: Segment<Ciphertext>, ghost lm: EchoNode, ghost rm: EchoNode,
        ghost i: nat, ghost known: set<Ciphertext>)
      returns (out: Segment<Ciphertext>)
      requires ev.Valid()
      requires HoldsSegment(ev, l, lm, i, known)
      requires HoldsSegment(ev, r, rm, i, known)
      modifies this`muls, this`adds
      ensures fresh(out.a) && fresh(out.b) && fresh(out.c) && fresh(out.d)
      ensures HoldsSegment(ev, out, ComposeNodes(lm, rm), i, {out.a, out.b, out.c, out.d})
      ensures muls == old(muls) + 4 && adds == old(adds) + 4
    {
      ghost var lv, rv := SegmentVectors(lm, i, 2 * ev.cols), SegmentVectors(rm, i, 2 * ev.cols);
      var a := Mul(r.a, l.a, rv.a, lv.a);
      var ab := Mul(r.a, l.b, rv.a, lv.b);
      var b := Add(ab, r.b, Hadamard(rv.a, lv.b), rv.b);
      var ca := Mul(r.c, l.a, rv.c, lv.a);
      var c := Add(l.c, ca, lv.c, Hadamard(rv.c, lv.a));
      var dd := Add(l.d, r.d, lv.d, rv.d);
      var cb := Mul(r.c, l.b, rv.c, lv.b);
      var d := Add(dd, cb, Plus(lv.d, rv.d), Hadamard(rv.c, lv.b));
      out := Segment(a, b, c, d);
      ComposeVectors(lm, rm, i, 2 * ev.cols);
    }

    /** The combine closure of the tree. */
    method Combine(left: seq<Segment<Ciphertext>>, right: seq<Segment<Ciphertext>>, ghost lm: EchoNode,
        ghost rm: EchoNode)
      returns (out: seq<Segment<Ciphertext>>)
      requires ev.Valid()
      requires HoldsBlocks(ev, left, lm, blocks, owned) && HoldsBlocks(ev, right, rm, blocks, owned)
      modifies this`muls, this`adds, this`owned
      ensures fresh(owned - old(owned)) && old(owned) <= owned
      ensures HoldsBlocks(ev, out, ComposeNodes(lm, rm), blocks, owned)
      ensures muls == old(muls) + 4 * blocks && adds == old(adds) + 4 * blocks
    {
      out := [];
      for i := 0 to blocks
        invariant |out| == i
        invariant fresh(owned - old(owned)) && old(owned) <= owned
        invariant forall j :: 0 <= j < i ==>
          HoldsSegment(ev, out[j], ComposeNodes(lm, rm), j, owned)
        invariant muls == old(muls) + 4 * i && adds == old(adds) + 4 * i
      {
        var seg := CombineBlock(left[i], right[i], lm, rm, i, old(owned));
        owned := owned + {seg.a, seg.b, seg.c, seg.d};
        out := out + [seg];
      }
    }

    ghost function Kept(p: Period, i: nat): seq<int>
      requires ev.Valid()
    {
      SegmentVectors(LeafNode(p), i, 2 * ev.cols).a
    }

    ghost function Gated(p: Period, i: nat): seq<int>
      requires ev.Valid()
    {
      SegmentVectors(LeafNode(p), i, 2 * ev.cols).b
    }

    ghost function GatedBlocks(p: Period): seq<seq<int>>
      requires ev.Valid()
    {
      seq(blocks, i requires 0 <= i => Gated(p, i))
    }

    /** One block: the complement of the mask and the gated payload, in new ciphertexts. */
    method GateBlock(input: Ciphertext, mask: Ciphertext, range: seq<int>, ghost p: Period, ghost i: nat)
      returns (complement: Ciphertext, product: Ciphertext)
      requires ev.Valid() && i < |p.x| && i < |p.z| && i < |p.r| && range == p.r[i]
      requires |p.x[i]| == |p.z[i]| == |p.r[i]| == 2 * ev.cols
      requires ev.Holds(input, p.x[i]) && ev.Holds(mask, p.z[i]) && input.depth == 0 && mask.depth == 0
      modifies this`muls
      ensures fresh(complement) && fresh(product)
      ensures LeafBlock(complement, product, Kept(p, i), Gated(p, i))
      ensures muls == old(muls) + 1
    {
      product := Mul(input, mask, p.x[i], p.z[i]);
      var negated := ev.NegateNew(mask, p.z[i]);
      complement := ev.AddPlainNew(negated, range, Negated(p.z[i]));
      assert Kept(p, i) == Plus(Negated(p.z[i]), p.r[i]);
      assert Gated(p, i) == Hadamard(p.x[i], p.z[i]);
    }

    /** Multiplies the payloads by their masks and complements the masks, in new ciphertexts. */
    method Gate(inputs: seq<Ciphertext>, masks: seq<Ciphertext>, ranges: seq<seq<int>>, ghost p: Period)
      returns (oneMinus: seq<Ciphertext>, gated: seq<Ciphertext>)
      requires ev.Valid() && Supplied(ev, blocks, inputs, masks, ranges, p)
      modifies this`muls, this`owned
      ensures |oneMinus| == |gated| == blocks
      ensures fresh(owned - old(owned)) && old(owned) <= owned
      ensures forall i :: 0 <= i < blocks ==>
        && fresh(oneMinus[i]) && fresh(gated[i]) && oneMinus[i] in owned && gated[i] in owned
        && LeafBlock(oneMinus[i], gated[i], Kept(p, i), Gated(p, i))
      ensures muls == old(muls) + blocks
    {
      oneMinus, gated := [], [];
      for i := 0 to blocks
        invariant |oneMinus| == |gated| == i
        invariant fresh(owned - old(owned)) && old(owned) <= owned
        invariant forall j :: 0 <= j < i ==>
          && fresh(oneMinus[j]) && fresh(gated[j]) && oneMinus[j] in owned && gated[j] in owned
          && LeafBlock(oneMinus[j], gated[j], Kept(p, j), Gated(p, j))
        invariant muls == old(muls) + i
      {
        var complement, product := GateBlock(inputs[i], masks[i], ranges[i], p, i);
        oneMinus, gated := oneMinus + [complement], gated + [product];
        owned := owned + {complement, product};
      }
    }

    /** One merge: the last two frontier entries become their composition. */
    method MergeLastTwo(ghost vals: seq<EchoNode>)
      requires ev.Valid() && |vals| >= 2 && HoldsFrontier(ev, frontier, vals, blocks, owned)
      modifies this`muls, this`adds, this`owned, this`frontier
      ensures fresh(owned - old(owned)) && old(owned) <= owned
      ensures HoldsFrontier(ev, frontier, MergeOnce(vals, ComposeNodes), blocks, owned)
      ensures muls == old(muls) + 4 * blocks && adds == old(adds) + 4 * blocks
    {
      var n := |frontier|;
      var merged := Combine(frontier[n - 2], frontier[n - 1], vals[n - 2], vals[n - 1]);
      frontier := frontier[..n - 1][n - 2 := merged];
      forall f | 0 <= f < n - 2 ensures HoldsBlocks(ev, frontier[f], vals[f], blocks, owned) {
        assert HoldsBlocks(ev, frontier[f], vals[f], blocks, old(owned));
      }
    }

    method MergeNext(ghost grown: seq<EchoNode>, ghost done: nat)
      requires ev.Valid() && done + 1 < |grown|
      requires HoldsFrontier(ev, frontier, MergeTop(grown, ComposeNodes, done), blocks, owned)
      modifies this`muls, this`adds, this`owned, this`frontier
      ensures fresh(owned - old(owned)) && old(owned) <= owned
      ensures HoldsFrontier(ev, frontier, MergeTop(grown, ComposeNodes, done + 1), blocks, owned)
      ensures muls == old(muls) + 4 * blocks && adds == old(adds) + 4 * blocks
    {
      MergeLastTwo(MergeTop(grown, ComposeNodes, done));
    }

    /** The merge loop of a push, on the frontier that already holds the new leaf. */
    method MergeClosed(merges: nat, ghost grown: seq<EchoNode>)
      requires ev.Valid() && merges < |grown| && HoldsFrontier(ev, frontier, grown, blocks, owned)
      modifies this`muls, this`adds, this`owned, this`frontier
      ensures fresh(owned - old(owned)) && old(owned) <= owned
      ensures HoldsFrontier(ev, frontier, MergeTop(grown, ComposeNodes, merges), blocks, owned)
      ensures muls == old(muls) + merges * (4 * blocks) && adds == old(adds) + merges * (4 * blocks)
    {
      ghost var cost := 4 * blocks;
      for done := 0 to merges
        invariant fresh(owned - old(owned)) && old(owned) <= owned
        invariant HoldsFrontier(ev, frontier, MergeTop(grown, ComposeNodes, done), blocks, owned)
        invariant muls == old(muls) + done * cost && adds == old(adds) + done * cost
      {
        MergeNext(grown, done);
        Distribute(cost, done, 1);
      }
    }

    /** The tree transition: pushes the leaves and merges every subtree that closed. */
    method PushLeaves(leaves: seq<Segment<Ciphertext>>, ghost leaf: EchoNode, ghost before: seq<EchoNode>)
      requires ev.Valid() && received < periods && Merges(0, periods - 1, received) <= |before|
      requires HoldsFrontier(ev, frontier, before, blocks, owned)
      requires HoldsBlocks(ev, leaves, leaf, blocks, owned)
      modifies this`muls, this`adds, this`owned, this`frontier
      ensures fresh(owned - old(owned)) && old(owned) <= owned
      ensures HoldsFrontier(ev, frontier, MergeTop(before + [leaf], ComposeNodes, Merges(0, periods - 1, received)),
                            blocks, owned)
      ensures muls == old(muls) + Merges(0, periods - 1, received) * (4 * blocks)
      ensures adds == old(adds) + Merges(0, periods - 1, received) * (4 * blocks)
    {
      var merges := CountMerges(periods, received);
      frontier := frontier + [leaves];
      MergeClosed(merges, before + [leaf]);
    }

    method FreshCopies(cts: seq<Ciphertext>, ghost vs: seq<seq<int>>)
      returns (copies: seq<Ciphertext>, ghost made: set<Ciphertext>)
      requires ev.Valid() && HoldsAll(ev, cts, vs)
      ensures |copies| == |cts| && fresh(made)
      ensures forall i :: 0 <= i < |cts| ==>
        copies[i] in made && ev.Holds(copies[i], vs[i]) && copies[i].depth == cts[i].depth
      ensures forall i, j :: 0 <= i < j < |cts| ==> copies[i] != copies[j]
    {
      copies, made := [], {};
      for i := 0 to |cts|
        invariant |copies| == i && fresh(made)
        invariant forall j :: 0 <= j < i ==>
          copies[j] in made && ev.Holds(copies[j], vs[j]) && copies[j].depth == cts[j].depth
        invariant forall j, k :: 0 <= j < k < i ==> copies[j] != copies[k]
      {
        var copy := ev.CopyNew(cts[i]);
        copies := copies + [copy];
        made := made + {copy};
      }
    }

    ghost function Values(h: seq<Period>): seq<seq<int>>
      requires ev.Valid()
    {
      seq(blocks, i requires 0 <= i => ValueVector(h, i, 2 * ev.cols))
    }

    ghost function Sums(h: seq<Period>): seq<seq<int>>
      requires ev.Valid()
    {
      seq(blocks, i requires 0 <= i => SumVector(h, i, 2 * ev.cols))
    }

    lemma FirstPeriod(p: Period, i: nat)
      requires ev.Valid()
      ensures ValueVector([p], i, 2 * ev.cols) == Gated(p, i) == SumVector([p], i, 2 * ev.cols)
    {
      forall s: nat | s < 2 * ev.cols
        ensures EchoValue([p], i, s, 1) == Leaf(p)(i, s).b == EchoSum([p], i, s, 1)
      {
        assert EchoValue([p], i, s, 0) == 0;
      }
    }

    lemma NextPeriod(h: seq<Period>, p: Period, i: nat)
      requires ev.Valid()
      ensures ValueVector(h + [p], i, 2 * ev.cols)
           == Plus(Hadamard(ValueVector(h, i, 2 * ev.cols), Kept(p, i)), Gated(p, i))
      ensures SumVector(h + [p], i, 2 * ev.cols)
           == Plus(SumVector(h, i, 2 * ev.cols), ValueVector(h + [p], i, 2 * ev.cols))
    {
      forall s: nat | s < 2 * ev.cols
        ensures EchoValue(h + [p], i, s, |h| + 1)
             == EchoValue(h, i, s, |h|) * Leaf(p)(i, s).a + Leaf(p)(i, s).b
        ensures EchoSum(h + [p], i, s, |h| + 1)
             == EchoSum(h, i, s, |h|) + EchoValue(h + [p], i, s, |h| + 1)
      {
        EchoPrefix(h, p, i, s, |h|);
      }
    }

    /** The first sequential period: value and total start as separate copies. */
    method StartSequential(gated: seq<Ciphertext>, ghost vs: seq<seq<int>>)
      requires ev.Valid() && |gated| == blocks && HoldsAll(ev, gated, vs) && AllAtDepth(gated, LEAF_DEPTHS.b)
      modifies this`current, this`totals, this`owned
      ensures Running(vs, vs) && Depths((LEAF_DEPTHS.b, LEAF_DEPTHS.b))
      ensures fresh(owned - old(owned)) && old(owned) <= owned && fresh(totals)
    {
      ghost var values, sums;
      current, values := FreshCopies(gated, vs);
      totals, sums := FreshCopies(gated, vs);
      owned := owned + values + sums;
    }

    /** The first blocks have advanced, the others not; values and totals never share a ciphertext. */
    ghost predicate Advanced(upTo: nat, values: seq<seq<int>>, sums: seq<seq<int>>, next: seq<seq<int>>,
        nextSums: seq<seq<int>>, depths: (int, int), after: (int, int))
      requires ev.Valid()
      reads this`current, this`totals, this`owned, owned
    {
      && |current| == |totals| == |values| == |sums| == |next| == |nextSums| == blocks
      && (forall i :: 0 <= i < blocks ==> current[i] in owned && totals[i] in owned)
      && (forall i, j :: 0 <= i < blocks && 0 <= j < blocks ==> current[i] != totals[j])
      && (forall i, j :: 0 <= i < j < blocks ==> totals[i] != totals[j])
      && (forall i :: 0 <= i < blocks && i < upTo ==> BlockAt(current[i], totals[i], next[i], nextSums[i], after))
      && (forall i :: upTo <= i < blocks ==> BlockAt(current[i], totals[i], values[i], sums[i], depths))
    }

    /** One block of a later sequential period, among the others. */
    method AdvanceAt(i: nat, complement: Ciphertext, payload: Ciphertext, ghost values: seq<seq<int>>,
        ghost sums: seq<seq<int>>, ghost kept: seq<int>, ghost x: seq<int>, ghost next: seq<seq<int>>,
        ghost nextSums: seq<seq<int>>, ghost depths: (int, int), ghost after: (int, int))
      requires ev.Valid() && i < blocks && Advanced(i, values, sums, next, nextSums, depths, after)
      requires LeafBlock(complement, payload, kept, x) && |values[i]| == |kept| == |x| == |sums[i]| == |next[i]|
      requires next[i] == Plus(Hadamard(values[i], kept), x) && nextSums[i] == Plus(sums[i], next[i])
      requires after == (NextDepth(depths.0), DepthOfAdd(depths.1, NextDepth(depths.0)))
      modifies this`current, this`owned, this`muls, this`adds, totals[i]
      ensures Advanced(i + 1, values, sums, next, nextSums, depths, after)
      ensures fresh(owned - old(owned)) && old(owned) <= owned
      ensures muls == old(muls) + 1 && adds == old(adds) + 2
    {
      AdvanceBlock(i, complement, payload, values[i], sums[i], kept, x, next[i], nextSums[i], depths);
    }

    /** One later sequential period: u = u*(r - z) + x*z per block, added to its total in place. */
    method AdvanceBlocks(oneMinus: seq<Ciphertext>, gated: seq<Ciphertext>, ghost values: seq<seq<int>>,
        ghost sums: seq<seq<int>>, ghost kept: seq<seq<int>>, ghost vs: seq<seq<int>>, ghost next: seq<seq<int>>,
        ghost nextSums: seq<seq<int>>, ghost depths: (int, int), ghost after: (int, int))
      requires ev.Valid() && Advanced(0, values, sums, next, nextSums, depths, after)
      requires |oneMinus| == |gated| == |kept| == |vs| == blocks
      requires forall i, j :: 0 <= i < blocks && 0 <= j < blocks ==> oneMinus[i] != totals[j] && gated[i] != totals[j]
      requires forall i :: 0 <= i < blocks ==> LeafBlock(oneMinus[i], gated[i], kept[i], vs[i])
      requires forall i :: 0 <= i < blocks ==> |values[i]| == |kept[i]| == |vs[i]| == |sums[i]| == |next[i]|
      requires forall i :: 0 <= i < blocks ==> next[i] == Plus(Hadamard(values[i], kept[i]), vs[i])
      requires forall i :: 0 <= i < blocks ==> nextSums[i] == Plus(sums[i], next[i])
      requires after == (NextDepth(depths.0), DepthOfAdd(depths.1, NextDepth(depths.0)))
      modifies this`current, this`owned, this`muls, this`adds, totals
      ensures Advanced(blocks, values, sums, next, nextSums, depths, after)
      ensures fresh(owned - old(owned)) && old(owned) <= owned
      ensures muls == old(muls) + blocks && adds == old(adds) + 2 * blocks
    {
      for i := 0 to blocks
        invariant Advanced(i, values, sums, next, nextSums, depths, after)
        invariant fresh(owned - old(owned)) && old(owned) <= owned
        invariant forall j :: i <= j < blocks ==> LeafBlock(oneMinus[j], gated[j], kept[j], vs[j])
        invariant muls == old(muls) + i && adds == old(adds) + 2 * i
      {
        AdvanceAt(i, oneMinus[i], gated[i], values, sums, kept[i], vs[i], next, nextSums, depths, after);
      }
    }

    method AdvanceSequential(oneMinus: seq<Ciphertext>, gated: seq<Ciphertext>, ghost values: seq<seq<int>>,
        ghost sums: seq<seq<int>>, ghost kept: seq<seq<int>>, ghost vs: seq<seq<int>>, ghost next: seq<seq<int>>,
        ghost nextSums: seq<seq<int>>, ghost depths: (int, int))
      requires ev.Valid() && Running(values, sums) && Depths(depths)
      requires AllAtDepth(oneMinus, LEAF_DEPTHS.a) && AllAtDepth(gated, LEAF_DEPTHS.b)
      requires |oneMinus| == |gated| == |next| == |nextSums| == blocks
      requires HoldsAll(ev, oneMinus, kept) && HoldsAll(ev, gated, vs)
      requires forall i :: 0 <= i < blocks ==> |values[i]| == |kept[i]| == |vs[i]| == |sums[i]| == |next[i]|
      requires forall i :: 0 <= i < blocks ==> next[i] == Plus(Hadamard(values[i], kept[i]), vs[i])
      requires forall i :: 0 <= i < blocks ==> nextSums[i] == Plus(sums[i], next[i])
      requires forall i, j :: 0 <= i < blocks && 0 <= j < blocks ==> oneMinus[i] != totals[j] && gated[i] != totals[j]
      modifies this`current, this`owned, this`muls, this`adds, totals
      ensures Running(next, nextSums) && Depths((NextDepth(depths.0), DepthOfAdd(depths.1, NextDepth(depths.0))))
      ensures fresh(owned - old(owned)) && old(owned) <= owned
      ensures muls == old(muls) + blocks && adds == old(adds) + 2 * blocks
    {
      ghost var after := (NextDepth(depths.0), DepthOfAdd(depths.1, NextDepth(depths.0)));
      AdvanceBlocks(oneMinus, gated, values, sums, kept, vs, next, nextSums, depths, after);
      assert forall i :: 0 <= i < blocks ==> BlockAt(current[i], totals[i], next[i], nextSums[i], after);
    }

    /** A block's value in force and running total, with their depths. */
    ghost predicate BlockAt(value: Ciphertext, total: Ciphertext, v: seq<int>, sum: seq<int>, depths: (int, int))
      requires ev.Valid()
      reads value, total
    {
      ev.Holds(value, v) && ev.Holds(total, sum) && value.depth == depths.0 && total.depth == depths.1
    }

    /** A block's complement and gated payload, with their depths. */
    ghost predicate LeafBlock(complement: Ciphertext, payload: Ciphertext, kept: seq<int>, x: seq<int>)
      requires ev.Valid()
      reads complement, payload
    {
      && ev.Holds(complement, kept) && ev.Holds(payload, x)
      && complement.depth == LEAF_DEPTHS.a && payload.depth == LEAF_DEPTHS.b
    }

    method AdvanceBlock(i: nat, complement: Ciphertext, payload: Ciphertext, ghost value: seq<int>,
        ghost sum: seq<int>, ghost kept: seq<int>, ghost x: seq<int>, ghost next: seq<int>, ghost nextSum: seq<int>,
        ghost depths: (int, int))
      requires ev.Valid() && i < |current| == |totals| && current[i] != totals[i]
      requires BlockAt(current[i], totals[i], value, sum, depths) && LeafBlock(complement, payload, kept, x)
      requires next == Plus(Hadamard(value, kept), x) && nextSum == Plus(sum, next)
      modifies this`current, this`owned, this`muls, this`adds, totals[i]
      ensures |current| == |old(current)| && current == old(current)[i := current[i]]
      ensures fresh(current[i]) && owned == old(owned) + {current[i]}
      ensures BlockAt(current[i], totals[i], next, nextSum,
                      (NextDepth(depths.0), DepthOfAdd(depths.1, NextDepth(depths.0))))
      ensures muls == old(muls) + 1 && adds == old(adds) + 2
    {
      var carried := Mul(current[i], complement, value, kept);
      var updated := Add(carried, payload, Hadamard(value, kept), x);
      owned := owned + {updated};
      current := current[i := updated];
      adds := adds + 1;
      ev.AddInPlace(totals[i], current[i], sum, next);
    }

    method RefreshCurrent(ghost values: seq<seq<int>>, ghost sums: seq<seq<int>>, ghost depths: (int, int))
      requires ev.Valid() && Running(values, sums) && Depths(depths)
      modifies this`current, this`owned, this`refreshes
      ensures Running(values, sums) && Depths((0, depths.1))
      ensures fresh(owned - old(owned)) && old(owned) <= owned
      ensures refreshes == old(refreshes) + blocks
    {
      for i := 0 to blocks
        invariant fresh(owned - old(owned)) && old(owned) <= owned
        invariant Running(values, sums)
        invariant forall j :: 0 <= j < i ==> current[j].depth == 0
        invariant refreshes == old(refreshes) + i
      {
        var refreshed := ev.Refresh(current[i]);
        refreshes := refreshes + 1;
        owned := owned + {refreshed};
        current := current[i := refreshed];
      }
    }

    ghost function KeptBlocks(p: Period): seq<seq<int>>
      requires ev.Valid()
    {
      seq(blocks, i requires 0 <= i => Kept(p, i))
    }

    lemma FirstBlocks(p: Period)
      requires ev.Valid()
      ensures Values([p]) == GatedBlocks(p) == Sums([p])
    {
      forall i | 0 <= i < blocks ensures Values([p])[i] == GatedBlocks(p)[i] == Sums([p])[i] {
        FirstPeriod(p, i);
      }
    }

    lemma NextBlocks(h: seq<Period>, p: Period)
      requires ev.Valid()
      ensures forall i :: 0 <= i < blocks ==>
        && Values(h + [p])[i] == Plus(Hadamard(Values(h)[i], KeptBlocks(p)[i]), GatedBlocks(p)[i])
        && Sums(h + [p])[i] == Plus(Sums(h)[i], Values(h + [p])[i])
    {
      forall i | 0 <= i < blocks
        ensures Values(h + [p])[i] == Plus(Hadamard(Values(h)[i], KeptBlocks(p)[i]), GatedBlocks(p)[i])
        ensures Sums(h + [p])[i] == Plus(Sums(h)[i], Values(h + [p])[i])
      {
        NextPeriod(h, p, i);
      }
    }

    /** Tree mode: complement and gated payload each serve two components of the leaf. */
    method CloseTree(oneMinus: seq<Ciphertext>, gated: seq<Ciphertext>, ghost p: Period, ghost before: seq<EchoNode>)
      requires ev.Valid() && received < periods && Merges(0, periods - 1, received) <= |before|
      requires HoldsFrontier(ev, frontier, before, blocks, owned)
      requires |oneMinus| == |gated| == blocks
      requires forall i :: 0 <= i < blocks ==> oneMinus[i] in owned && gated[i] in owned
      requires HoldsAll(ev, oneMinus, KeptBlocks(p)) && HoldsAll(ev, gated, GatedBlocks(p))
      requires AllAtDepth(oneMinus, LEAF_DEPTHS.a) && AllAtDepth(gated, LEAF_DEPTHS.b)
      modifies this`muls, this`adds, this`owned, this`frontier
      ensures fresh(owned - old(owned)) && old(owned) <= owned
      ensures HoldsFrontier(ev, frontier,
                            MergeTop(before + [LeafNode(p)], ComposeNodes, Merges(0, periods - 1, received)), blocks,
                            owned)
      ensures muls == old(muls) + Merges(0, periods - 1, received) * (4 * blocks)
      ensures adds == old(adds) + Merges(0, periods - 1, received) * (4 * blocks)
    {
      var leaves := seq(blocks, i requires 0 <= i < blocks => Segment(oneMinus[i], gated[i], oneMinus[i], gated[i]));
      LeafBlocks(leaves, oneMinus, gated, p);
      PushLeaves(leaves, LeafNode(p), before);
    }

    lemma FrontierGrows(vals: seq<EchoNode>, small: set<Ciphertext>, large: set<Ciphertext>)
      requires ev.Valid() && small <= large && HoldsFrontier(ev, frontier, vals, blocks, small)
      ensures HoldsFrontier(ev, frontier, vals, blocks, large)
    {
      forall f | 0 <= f < |frontier| ensures HoldsBlocks(ev, frontier[f], vals[f], blocks, large) {
        assert HoldsBlocks(ev, frontier[f], vals[f], blocks, small);
      }
    }

    lemma LeafBlocks(leaves: seq<Segment<Ciphertext>>, oneMinus: seq<Ciphertext>, gated: seq<Ciphertext>, p: Period)
      requires ev.Valid() && |oneMinus| == |gated| == |leaves| == blocks
      requires forall i :: 0 <= i < blocks ==> leaves[i] == Segment(oneMinus[i], gated[i], oneMinus[i], gated[i])
      requires forall i :: 0 <= i < blocks ==> oneMinus[i] in owned && gated[i] in owned
      requires HoldsAll(ev, oneMinus, KeptBlocks(p)) && HoldsAll(ev, gated, GatedBlocks(p))
      requires AllAtDepth(oneMinus, LEAF_DEPTHS.a) && AllAtDepth(gated, LEAF_DEPTHS.b)
      ensures HoldsBlocks(ev, leaves, LeafNode(p), blocks, owned)
    {
      forall i | 0 <= i < blocks
        ensures HoldsSegment(ev, leaves[i], LeafNode(p), i, owned)
      {
        var v := SegmentVectors(LeafNode(p), i, 2 * ev.cols);
        assert ev.Holds(oneMinus[i], KeptBlocks(p)[i]) && ev.Holds(gated[i], GatedBlocks(p)[i]);
        assert v.c == v.a && v.d == v.b;
      }
    }

    /** The sequential transition, with the refresh the policy asks for. */
    method CloseSequential(oneMinus: seq<Ciphertext>, gated: seq<Ciphertext>, ghost p: Period)
      requires Config() && mode == Sequential && SequentialValid() && received == |history| < periods
      requires |oneMinus| == |gated| == blocks
      requires HoldsAll(ev, oneMinus, KeptBlocks(p)) && HoldsAll(ev, gated, GatedBlocks(p))
      requires AllAtDepth(oneMinus, LEAF_DEPTHS.a) && AllAtDepth(gated, LEAF_DEPTHS.b)
      requires forall i, j :: 0 <= i < blocks && 0 <= j < |totals| ==> oneMinus[i] != totals[j] && gated[i] != totals[j]
      modifies this`current, this`totals, this`owned, this`muls, this`adds, this`refreshes, totals
      ensures Running(Values(history + [p]), Sums(history + [p]))
      ensures Depths(StateDepths(mode, periods, shouldRefresh, received + 1))
      ensures fresh(owned - old(owned)) && old(owned) <= owned
      ensures muls == old(muls) + TransitionMuls(mode, periods, blocks, received)
      ensures adds == old(adds) + TransitionAdds(mode, periods, blocks, received)
      ensures refreshes == old(refreshes) + if RefreshedAt(mode, periods, shouldRefresh, received) then blocks else 0
    {
      if received == 0 {
        FirstBlocks(p);
        assert history + [p] == [p];
        StartSequential(gated, GatedBlocks(p));
      } else {
        NextBlocks(history, p);
        AdvanceSequential(oneMinus, gated, Values(history), Sums(history), KeptBlocks(p), GatedBlocks(p),
                          Values(history + [p]), Sums(history + [p]),
                          StateDepths(mode, periods, shouldRefresh, received));
        RefreshIfAsked(Values(history + [p]), Sums(history + [p]));
      }
    }

    /** The refresh that the policy may ask for after a later sequential period. */
    method RefreshIfAsked(ghost values: seq<seq<int>>, ghost sums: seq<seq<int>>)
      requires Config() && mode == Sequential && 0 < received < periods
      requires Running(values, sums) && Depths(DepthsBeforeRefresh())
      modifies this`current, this`owned, this`refreshes
      ensures Running(values, sums) && Depths(StateDepths(mode, periods, shouldRefresh, received + 1))
      ensures fresh(owned - old(owned)) && old(owned) <= owned
      ensures refreshes == old(refreshes) + if RefreshedAt(mode, periods, shouldRefresh, received) then blocks else 0
    {
      if shouldRefresh.Some? && shouldRefresh.value(received) {
        RefreshCurrent(values, sums, DepthsBeforeRefresh());
      }
    }

    /** Depths of value and total between a period's addition and its refresh. */
    ghost function DepthsBeforeRefresh(): (int, int)
      requires Config() && 0 < received < periods
      reads this
    {
      var before := StateDepths(mode, periods, shouldRefresh, received);
      (NextDepth(before.0), DepthOfAdd(before.1, NextDepth(before.0)))
    }

    /** The tree transition of a whole period. */
    method CloseTreePeriod(oneMinus: seq<Ciphertext>, gated: seq<Ciphertext>, ghost p: Period,
        ghost before: seq<EchoNode>)
      requires Config() && mode == Tree && received == |history| < periods
      requires before == Completed(LeafNodes(history), ComposeNodes, 0, periods - 1, received)
      requires HoldsFrontier(ev, frontier, before, blocks, owned)
      requires |oneMinus| == |gated| == blocks
      requires forall i :: 0 <= i < blocks ==> oneMinus[i] in owned && gated[i] in owned
      requires HoldsAll(ev, oneMinus, KeptBlocks(p)) && HoldsAll(ev, gated, GatedBlocks(p))
      requires AllAtDepth(oneMinus, LEAF_DEPTHS.a) && AllAtDepth(gated, LEAF_DEPTHS.b)
      modifies this`owned, this`muls, this`adds, this`frontier
      ensures fresh(owned - old(owned)) && old(owned) <= owned
      ensures HoldsFrontier(ev, frontier,
                            Completed(LeafNodes(history + [p]), ComposeNodes, 0, periods - 1, received + 1), blocks,
                            owned)
      ensures muls == old(muls) + TransitionMuls(mode, periods, blocks, received)
      ensures adds == old(adds) + TransitionAdds(mode, periods, blocks, received)
    {
      LeafPushFacts(history, p, periods);
      CloseTree(oneMinus, gated, p, before);
    }

    /** The period joins the history once its transition has run. */
    method RecordTree(ghost p: Period)
      requires Config() && mode == Tree && received == |history| < periods && current == [] && totals == []
      requires HoldsFrontier(ev, frontier,
                             Completed(LeafNodes(history + [p]), ComposeNodes, 0, periods - 1, received + 1), blocks,
                             owned)
      modifies this`history, this`received
      ensures Consistent() && history == old(history) + [p] && received == old(received) + 1
    {
      history := history + [p];
      received := received + 1;
    }

    method RecordSequential(ghost p: Period)
      requires Config() && mode == Sequential && received == |history| < periods && frontier == []
      requires Running(Values(history + [p]), Sums(history + [p]))
      requires Depths(StateDepths(mode, periods, shouldRefresh, received + 1))
      modifies this`history, this`received
      ensures Consistent() && history == old(history) + [p] && received == old(received) + 1
    {
      history := history + [p];
      received := received + 1;
    }

    method TreeTransition(oneMinus: seq<Ciphertext>, gated: seq<Ciphertext>, ghost p: Period)
      requires Consistent() && received < periods
      requires |oneMinus| == |gated| == blocks
      requires forall i :: 0 <= i < blocks ==> oneMinus[i] in owned && gated[i] in owned
      requires HoldsAll(ev, oneMinus, KeptBlocks(p)) && HoldsAll(ev, gated, GatedBlocks(p))
      requires AllAtDepth(oneMinus, LEAF_DEPTHS.a) && AllAtDepth(gated, LEAF_DEPTHS.b)
      requires mode == Tree
      modifies this
      ensures Consistent() && history == old(history) + [p] && received == old(received) + 1
      ensures fresh(owned - old(owned)) && old(owned) <= owned
      ensures muls == old(muls) + TransitionMuls(mode, periods, blocks, old(received))
      ensures adds == old(adds) + TransitionAdds(mode, periods, blocks, old(received))
      ensures refreshes
        == old(refreshes) + if RefreshedAt(mode, periods, shouldRefresh, old(received)) then blocks else 0
    {
      CloseTreePeriod(oneMinus, gated, p, Completed(LeafNodes(history), ComposeNodes, 0, periods - 1, received));
      RecordTree(p);
    }

    method SequentialTransition(oneMinus: seq<Ciphertext>, gated: seq<Ciphertext>, ghost p: Period)
      requires Consistent() && received < periods
      requires |oneMinus| == |gated| == blocks
      requires forall i :: 0 <= i < blocks ==> oneMinus[i] in owned && gated[i] in owned
      requires HoldsAll(ev, oneMinus, KeptBlocks(p)) && HoldsAll(ev, gated, GatedBlocks(p))
      requires AllAtDepth(oneMinus, LEAF_DEPTHS.a) && AllAtDepth(gated, LEAF_DEPTHS.b)
      requires forall i, j :: 0 <= i < blocks && 0 <= j < |totals| ==> oneMinus[i] != totals[j] && gated[i] != totals[j]
      requires mode == Sequential
      modifies this, totals
      ensures Consistent() && history == old(history) + [p] && received == old(received) + 1
      ensures fresh(owned - old(owned)) && old(owned) <= owned
      ensures muls == old(muls) + TransitionMuls(mode, periods, blocks, old(received))
      ensures adds == old(adds) + TransitionAdds(mode, periods, blocks, old(received))
      ensures refreshes
        == old(refreshes) + if RefreshedAt(mode, periods, shouldRefresh, old(received)) then blocks else 0
    {
      CloseSequential(oneMinus, gated, p);
      RecordSequential(p);
    }

    /** The transition of either mode, from the gated period. */
    method Transition(oneMinus: seq<Ciphertext>, gated: seq<Ciphertext>, ghost p: Period)
      requires Consistent() && received < periods
      requires |oneMinus| == |gated| == blocks
      requires forall i :: 0 <= i < blocks ==> oneMinus[i] in owned && gated[i] in owned
      requires HoldsAll(ev, oneMinus, KeptBlocks(p)) && HoldsAll(ev, gated, GatedBlocks(p))
      requires AllAtDepth(oneMinus, LEAF_DEPTHS.a) && AllAtDepth(gated, LEAF_DEPTHS.b)
      requires forall i, j :: 0 <= i < blocks && 0 <= j < |totals| ==> oneMinus[i] != totals[j] && gated[i] != totals[j]
      modifies this, totals
      ensures Consistent() && history == old(history) + [p] && received == old(received) + 1
      ensures fresh(owned - old(owned)) && old(owned) <= owned
      ensures muls == old(muls) + TransitionMuls(mode, periods, blocks, old(received))
      ensures adds == old(adds) + TransitionAdds(mode, periods, blocks, old(received))
      ensures refreshes
        == old(refreshes) + if RefreshedAt(mode, periods, shouldRefresh, old(received)) then blocks else 0
    {
      if mode == Tree {
        TreeTransition(oneMinus, gated, p);
      } else {
        SequentialTransition(oneMinus, gated, p);
      }
    }

    /** Gating keeps the state as it was, with more ciphertexts owned. */
    lemma ConsistentGrows(small: set<Ciphertext>)
      requires Config() && received == |history| <= periods && small <= owned
      requires mode == Tree ==>
        current == [] && totals == []
        && HoldsFrontier(ev, frontier, Completed(LeafNodes(history), ComposeNodes, 0, periods - 1, received), blocks,
                         small)
      requires mode == Sequential ==> SequentialValid()
      ensures Consistent()
    {
      if mode == Tree {
        FrontierGrows(Completed(LeafNodes(history), ComposeNodes, 0, periods - 1, received), small, owned);
      }
    }

    /**
     * periodic_echo.go ClosePeriod. Besides new ciphertexts, only the state's own
     * running totals change; the supplied inputs and masks keep their values.
     */
    method ClosePeriod(inputs: seq<Ciphertext>, masks: seq<Ciphertext>, ranges: seq<seq<int>>, ghost p: Period)
      requires Valid() && received < periods && Supplied(ev, blocks, inputs, masks, ranges, p)
      requires forall ct :: ct in inputs || ct in masks ==> ct !in totals
      modifies this, totals
      ensures Valid() && history == old(history) + [p] && received == old(received) + 1
      ensures fresh(owned - old(owned)) && old(owned) <= owned
      ensures forall ct :: ct in inputs || ct in masks ==> ct.slots == old(ct.slots)
    {
      var oneMinus, gated := GateConsistently(inputs, masks, ranges, p);
      Transition(oneMinus, gated, p);
    }

    /** Gating adds ciphertexts to the state and leaves it consistent. */
    method GateConsistently(inputs: seq<Ciphertext>, masks: seq<Ciphertext>, ranges: seq<seq<int>>, ghost p: Period)
      returns (oneMinus: seq<Ciphertext>, gated: seq<Ciphertext>)
      requires Consistent() && Supplied(ev, blocks, inputs, masks, ranges, p)
      modifies this`muls, this`owned
      ensures Consistent() && |oneMinus| == |gated| == blocks
      ensures fresh(owned - old(owned)) && old(owned) <= owned
      ensures forall i :: 0 <= i < blocks ==>
        && fresh(oneMinus[i]) && fresh(gated[i]) && oneMinus[i] in owned && gated[i] in owned
      ensures HoldsAll(ev, oneMinus, KeptBlocks(p)) && HoldsAll(ev, gated, GatedBlocks(p))
      ensures AllAtDepth(oneMinus, LEAF_DEPTHS.a) && AllAtDepth(gated, LEAF_DEPTHS.b)
      ensures muls == old(muls) + blocks
    {
      oneMinus, gated := Gate(inputs, masks, ranges, p);
      ConsistentGrows(old(owned));
      assert forall i :: 0 <= i < blocks ==> LeafBlock(oneMinus[i], gated[i], Kept(p, i), Gated(p, i));
    }

    /** periodic_echo.go Totals. */
    method Totals() returns (out: seq<Ciphertext>)
      requires Valid() && received == periods
      ensures |out| == blocks
      ensures forall i :: 0 <= i < blocks ==> out[i] in owned && ev.Holds(out[i], SumVector(history, i, 2 * ev.cols))
      ensures AllAtDepth(out, EchoDepth(mode, periods, shouldRefresh))
    {
      if mode == Sequential {
        return totals;
      }
      var root := frontier[0];
      RootHolds(root);
      out := seq(blocks, i requires 0 <= i < blocks => root[i].d);
    }

    lemma RootHolds(root: seq<Segment<Ciphertext>>)
      requires Config() && mode == Tree && TreeValid() && received == periods
      requires |frontier| > 0 && root == frontier[0]
      ensures |root| == blocks
      ensures forall i :: 0 <= i < blocks ==>
        && root[i].d in owned && ev.Holds(root[i].d, SumVector(history, i, 2 * ev.cols))
        && root[i].d.depth == EchoDepth(mode, periods, shouldRefresh)
    {
      var n := 2 * ev.cols;
      var val := BalancedReduce(LeafNodes(history), ComposeNodes);
      NodesReduce(history, 0, |history| - 1);
      assert HoldsBlocks(ev, root, val, blocks, owned);
      forall i | 0 <= i < blocks
        ensures root[i].d in owned && ev.Holds(root[i].d, SumVector(history, i, n))
        ensures root[i].d.depth == EchoDepth(mode, periods, shouldRefresh)
      {
        forall s: nat | s < n ensures val.coefficients(i, s).d == EchoSum(history, i, s, |history|) {
          RootIsEchoSum(history, i, s);
        }
        assert SegmentVectors(val, i, n).d == SumVector(history, i, n);
      }
    }
  }

  /** Closes a period of ciphertexts that the state does not own; its totals stay its own. */
  method FeedPeriod(state: PeriodicEchoState, inputs: seq<Ciphertext>, masks: seq<Ciphertext>, ranges: seq<seq<int>>,
      ghost p: Period)
    requires state.Valid() && state.received < state.periods
    requires Supplied(state.ev, state.blocks, inputs, masks, ranges, p)
    requires Foreign(inputs, state.owned) && Foreign(masks, state.owned)
    requires forall ct :: ct in state.totals ==> ct in state.owned
    modifies state, state.totals
    ensures state.Valid() && state.history == old(state.history) + [p] && state.received == old(state.received) + 1
    ensures fresh(state.owned - old(state.owned)) && old(state.owned) <= state.owned
    ensures forall ct :: ct in state.totals ==> ct in state.owned
  {
    state.ClosePeriod(inputs, masks, ranges, p);
    TotalsAreOwned(state);
  }

  /** Closes the supplied periods one after the other, on a new state. */
  method FeedPeriods(state: PeriodicEchoState, inputs: seq<seq<Ciphertext>>, masks: seq<seq<Ciphertext>>,
      ranges: seq<seq<seq<int>>>, ghost periods: seq<Period>)
    requires state.Valid() && state.history == [] && state.received == 0 && state.owned == {} && state.totals == []
    requires state.periods == |inputs| == |masks| == |ranges| == |periods|
    requires forall p :: 0 <= p < |periods| ==>
      Supplied(state.ev, state.blocks, inputs[p], masks[p], ranges[p], periods[p])
    modifies state
    ensures state.Valid() && state.history == periods && state.received == state.periods && fresh(state.owned)
  {
    for p := 0 to |inputs|
      invariant state.Valid() && state.received == p && state.history == periods[..p]
      invariant fresh(state.owned) && forall ct :: ct in state.totals ==> ct in state.owned
    {
      assert unchanged(inputs[p]) && unchanged(masks[p]);
      FeedPeriod(state, inputs[p], masks[p], ranges[p], periods[p]);
      assert periods[..p + 1] == periods[..p] + [periods[p]];
    }
    assert periods[..|periods|] == periods;
  }

  /**
   * A whole run over arbitrary supplied periods, in either mode and under any refresh
   * policy. With no modifies clause, no supplied ciphertext changes; the slots of the
   * totals do not depend on mode or policy.
   */
  method RunEcho(ev: Evaluator, blocks: nat, mode: EchoMode, policy: RefreshPolicy, inputs: seq<seq<Ciphertext>>,
      masks: seq<seq<Ciphertext>>, ranges: seq<seq<seq<int>>>, ghost periods: seq<Period>)
    returns (totals: seq<Ciphertext>)
    requires ev.Valid() && blocks > 0 && 0 < |inputs| == |masks| == |ranges| == |periods|
    requires PolicyDefined(mode, |periods|, policy)
    requires forall p :: 0 <= p < |periods| ==> Supplied(ev, blocks, inputs[p], masks[p], ranges[p], periods[p])
    ensures |totals| == blocks && fresh(totals) && forall i :: 0 <= i < blocks ==> |totals[i].slots| == 2 * ev.cols
    ensures forall i :: 0 <= i < blocks ==> totals[i].slots == Residues(SumVector(periods, i, 2 * ev.cols), ev.t)
    ensures forall i, s :: 0 <= i < blocks && 0 <= s < 2 * ev.cols ==>
      totals[i].slots[s] == CarriedTotal(periods, i, s, |periods|) % ev.t
    ensures |periods| == 1 ==> forall i, s :: 0 <= i < blocks && 0 <= s < 2 * ev.cols ==>
      totals[i].slots[s] == (At(periods[0].x, i, s) * At(periods[0].z, i, s)) % ev.t
    ensures AllAtDepth(totals, EchoDepth(mode, |periods|, policy))
  {
    var state := new PeriodicEchoState(|inputs|, blocks, mode, ev, policy);
    FeedPeriods(state, inputs, masks, ranges, periods);
    totals := state.Totals();
    forall i: nat, s: nat | i < blocks && s < 2 * ev.cols
      ensures SumVector(periods, i, 2 * ev.cols)[s] == CarriedTotal(periods, i, s, |periods|)
    {
      EchoIsCarried(periods, i, s, |periods|);
    }
    if |periods| == 1 {
      forall i: nat, s: nat | i < blocks && s < 2 * ev.cols
        ensures CarriedTotal(periods, i, s, 1) == At(periods[0].x, i, s) * At(periods[0].z, i, s)
      {
        OnePeriodEcho(periods, i, s);
      }
    }
  }

  /** The running totals are ciphertexts of the state. */
  lemma TotalsAreOwned(s: PeriodicEchoState)
    requires s.Valid()
    ensures forall ct :: ct in s.totals ==> ct in s.owned
  {
  }
}
