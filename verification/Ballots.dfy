/**
 * The tally told voter by voter, without support vectors or weights: every voter's whole
 * power goes to whoever received it, and from there to the candidate that one chose.
 */
module Ballots {
  import opened Modular
  import opened Matrices
  import opened Lagrange
  import opened TallySpec
  import opened Workload

  // ------------------------------------------------------------------- choices

  /** x is the column that holds more than half of T in row v; -1 if there is none. */
  ghost predicate Chooses(m: seq<int>, width: nat, T: nat, v: nat, x: int) {
    || (x == -1 && forall c: nat :: c < width ==> 2 * Entry(m, width, v, c) <= T)
    || (0 <= x < width && 2 * Entry(m, width, v, x) > T)
  }

  ghost predicate AllChoose(m: seq<int>, n: nat, width: nat, T: nat, xs: seq<int>) {
    |xs| == n && forall v: nat :: v < n ==> Chooses(m, width, T, v, xs[v])
  }

  ghost function Choice(m: seq<int>, width: nat, T: nat, v: nat): (x: int)
    ensures Chooses(m, width, T, v, x)
  {
    if c: nat :| c < width && 2 * Entry(m, width, v, c) > T then c else -1
  }

  ghost function Choices(m: seq<int>, n: nat, width: nat, T: nat): (xs: seq<int>)
    ensures AllChoose(m, n, width, T, xs)
  {
    seq(n, v requires 0 <= v < n => Choice(m, width, T, v))
  }

  lemma {:induction false} TwoEntries(m: seq<int>, width: nat, v: nat, c: nat, d: nat, upTo: nat)
    requires c < d < upTo && forall j: nat :: j < upTo ==> Entry(m, width, v, j) >= 0
    ensures Entry(m, width, v, c) + Entry(m, width, v, d) <= RowSum(m, width, v, upTo)
  {
    if d == upTo - 1 {
      RowSumZero(m, width, v, d);
    } else {
      TwoEntries(m, width, v, c, d, upTo - 1);
    }
  }

  /** The selection has a 1 exactly at the chosen column. */
  lemma SelectedIsChoice(m: seq<int>, n: nat, width: nat, T: nat, xs: seq<int>, v: nat, c: nat)
    requires RowsBounded(m, n, width, T) && AllChoose(m, n, width, T, xs) && v < n && c < width
    ensures Entry(Selected(m, T), width, v, c) == if xs[v] == c then 1 else 0
    ensures Entry(m, width, v, c) > T / 2 <==> c == xs[v]
  {
    SelectedEntry(m, T, n, width, v, c);
    assert Chooses(m, width, T, v, xs[v]);
    if 0 <= xs[v] != c && 2 * Entry(m, width, v, c) > T {
      if c < xs[v] {
        TwoEntries(m, width, v, c, xs[v], width);
      } else {
        TwoEntries(m, width, v, xs[v], c, width);
      }
      assert false;
    }
  }

  // ------------------------------------------------------------ power by target

  /** The power of those of the first n voters whose target is x. */
  function PowerOf(q: seq<int>, target: seq<int>, x: int, n: nat): int
    requires n <= |q| && n <= |target|
  {
    if n == 0 then 0 else PowerOf(q, target, x, n - 1) + if target[n - 1] == x then q[n - 1] else 0
  }

  /** A column of scaled selections is the power of the voters that chose it. */
  lemma {:induction false} ColumnIsPower(m: seq<int>, n: nat, width: nat, T: nat, xs: seq<int>, f: seq<int>, c: nat,
      upTo: nat)
    requires RowsBounded(m, n, width, T) && AllChoose(m, n, width, T, xs) && |f| == n && c < width && upTo <= n
    ensures ColumnSum(RowsScaled(Selected(m, T), width, f), width, c, 0, upTo) == PowerOf(f, xs, c, upTo)
  {
    if upTo > 0 {
      ColumnIsPower(m, n, width, T, xs, f, c, upTo - 1);
      SelectedIsChoice(m, n, width, T, xs, upTo - 1, c);
      RowsScaledEntry(Selected(m, T), width, f, upTo - 1, c);
    }
  }

  lemma SelfPowerIsKept(w: seq<int>, q: seq<int>, k: nat, T: nat, del: seq<int>, v: nat)
    requires RowsBounded(w, |q|, k, T) && AllChoose(w, |q|, k, T, del) && v < |q|
    ensures SelfPower(w, q, k, T, v) == if del[v] < 0 then q[v] else 0
  {
    assert Chooses(w, k, T, v, del[v]);
    forall j: nat | j < k ensures Entry(w, k, v, j) > T / 2 <==> j == del[v] {
      SelectedIsChoice(w, |q|, k, T, del, v, j);
    }
    SelectedRowSum(w, |q|, k, T, v, del[v], k);
  }

  /** What a row of D hands over: the power of each voter whose delegate is below c, times the delegate's entry. */
  function HandedOver(row: seq<nat>, q: seq<int>, del: seq<int>, c: nat, n: nat): int
    requires c <= |row| && n <= |q| && n <= |del|
  {
    if n == 0 then 0
    else HandedOver(row, q, del, c, n - 1) + if 0 <= del[n - 1] < c then row[del[n - 1]] * q[n - 1] else 0
  }

  lemma {:induction false} HandedOverStep(row: seq<nat>, q: seq<int>, del: seq<int>, c: nat, n: nat)
    requires 0 < c <= |row| && n <= |q| && n <= |del|
    ensures HandedOver(row, q, del, c, n)
         == HandedOver(row, q, del, c - 1, n) + row[c - 1] * PowerOf(q, del, c - 1, n)
  {
    if n > 0 {
      HandedOverStep(row, q, del, c, n - 1);
      Distribute(row[c - 1], PowerOf(q, del, c - 1, n - 1), if del[n - 1] == c - 1 then q[n - 1] else 0);
    }
  }

  lemma {:induction false} NothingHandedOver(row: seq<nat>, q: seq<int>, del: seq<int>, n: nat)
    requires n <= |q| && n <= |del|
    ensures HandedOver(row, q, del, 0, n) == 0
  {
    if n > 0 {
      NothingHandedOver(row, q, del, n - 1);
    }
  }

  lemma {:induction false} DelegatedIsHandedOver(D: seq<seq<nat>>, w: seq<int>, q: seq<int>, k: nat, T: nat,
      del: seq<int>, v: nat, c: nat)
    requires RowsBounded(w, |q|, k, T) && AllChoose(w, |q|, k, T, del) && v < |D| && c <= k <= |D[v]|
    ensures Delegated(D, w, q, k, T, v, c) == HandedOver(D[v], q, del, c, |q|)
  {
    if c == 0 {
      NothingHandedOver(D[v], q, del, |q|);
    } else {
      DelegatedIsHandedOver(D, w, q, k, T, del, v, c - 1);
      ColumnIsPower(w, |q|, k, T, del, q, c - 1, |q|);
      HandedOverStep(D[v], q, del, c, |q|);
    }
  }

  /** For every matrix D: what a voter kept, and what D hands over from the voters that chose a delegate. */
  lemma WeightByVoters(D: seq<seq<nat>>, w: seq<int>, q: seq<int>, k: nat, T: nat, del: seq<int>, v: nat)
    requires RowsBounded(w, |q|, k, T) && AllChoose(w, |q|, k, T, del) && IsDelegation(D, |q|, k) && v < |q|
    ensures Weight(D, w, q, k, T, v) == (if del[v] < 0 then q[v] else 0) + HandedOver(D[v], q, del, k, |q|)
  {
    SelfPowerIsKept(w, q, k, T, del, v);
    DelegatedIsHandedOver(D, w, q, k, T, del, v, k);
  }

  /** For every matrix D, a candidate's tally is the weight of the voters that chose the candidate. */
  lemma TallyByWeights(D: seq<seq<nat>>, w: seq<int>, t: seq<int>, q: seq<int>, b: nat, k: nat, T: nat,
      cand: seq<int>, c: nat)
    requires |w| == |q| * k && IsDelegation(D, |q|, k) && RowsBounded(t, |q|, b, T) && AllChoose(t, |q|, b, T, cand)
    requires c < b
    ensures Tally(D, w, t, q, b, k, T, c) == PowerOf(Weights(D, w, q, k, T), cand, c, |q|)
  {
    ColumnIsPower(t, |q|, b, T, cand, Weights(D, w, q, k, T), c, |q|);
  }

  // --------------------------------------------------------- receivers and ballots

  /** Who holds voter u's power: the voter on whom u's delegate sits, or u. */
  function Receiver(owner: seq<nat>, del: int, u: nat): nat {
    if 0 <= del < |owner| then owner[del] else u
  }

  function Receivers(owner: seq<nat>, del: seq<int>): (r: seq<int>)
    ensures |r| == |del|
  {
    seq(|del|, u requires 0 <= u < |del| => Receiver(owner, del[u], u))
  }

  /** The candidate that each voter's power ends at: the one that its receiver chose, or -1. */
  function Cast(owner: seq<nat>, del: seq<int>, cand: seq<int>): (r: seq<int>)
    ensures |r| == |del|
  {
    seq(|del|, u requires 0 <= u < |del| =>
      var holder := Receiver(owner, del[u], u);
      if holder < |cand| then cand[holder] else -1)
  }

  lemma {:induction false} WeightIsReceived(D: seq<seq<nat>>, owner: seq<nat>, q: seq<int>, k: nat, del: seq<int>,
      v: nat, n: nat)
    requires OwnedBy(D, |q|, k, owner) && |del| == |q| && v < |q| && n <= |q|
    requires forall u :: 0 <= u < |del| ==> -1 <= del[u] < k
    ensures (if v < n && del[v] < 0 then q[v] else 0) + HandedOver(D[v], q, del, k, n)
         == PowerOf(q, Receivers(owner, del), v, n)
  {
    if n > 0 {
      WeightIsReceived(D, owner, q, k, del, v, n - 1);
      var l := del[n - 1];
      if l >= 0 {
        assert D[v][l] == if v == owner[l] then 1 else 0;
      }
    }
  }

  lemma {:induction false} PowerOfRaised(f: seq<int>, raised: seq<int>, target: seq<int>, x: int, j: nat, d: int,
                                         n: nat)
    requires |f| == |raised| && n <= |f| && n <= |target| && j < |f| && raised == f[j := f[j] + d]
    ensures PowerOf(raised, target, x, n) == PowerOf(f, target, x, n) + if j < n && target[j] == x then d else 0
  {
    if n > 0 {
      PowerOfRaised(f, raised, target, x, j, d, n - 1);
    }
  }

  /** The powers that the first m voters send to every receiver. */
  function Sent(q: seq<int>, receivers: seq<int>, n: nat, m: nat): (f: seq<int>)
    requires m <= |q| && m <= |receivers|
    ensures |f| == n
  {
    seq(n, v requires 0 <= v < n => PowerOf(q, receivers, v, m))
  }

  lemma {:induction false} PowerThroughReceivers(owner: seq<nat>, q: seq<int>, del: seq<int>, cand: seq<int>, c: int,
      m: nat)
    requires |del| == |q| == |cand| && m <= |q|
    requires forall u :: 0 <= u < |del| ==> 0 <= Receiver(owner, del[u], u) < |cand|
    ensures PowerOf(Sent(q, Receivers(owner, del), |q|, m), cand, c, |q|) == PowerOf(q, Cast(owner, del, cand), c, m)
  {
    var n, r := |q|, Receivers(owner, del);
    if m == 0 {
      NothingSent(Sent(q, r, n, 0), cand, c, n);
    } else {
      PowerThroughReceivers(owner, q, del, cand, c, m - 1);
      var before, j := Sent(q, r, n, m - 1), Receiver(owner, del[m - 1], m - 1);
      assert Sent(q, r, n, m) == before[j := before[j] + q[m - 1]];
      PowerOfRaised(before, Sent(q, r, n, m), cand, c, j, q[m - 1], n);
    }
  }

  lemma {:induction false} NothingSent(f: seq<int>, target: seq<int>, x: int, n: nat)
    requires n <= |f| && n <= |target| && forall v :: 0 <= v < |f| ==> f[v] == 0
    ensures PowerOf(f, target, x, n) == 0
  {
    if n > 0 {
      NothingSent(f, target, x, n - 1);
    }
  }

  /** The vectors name columns of their matrices. */
  lemma ChoicesInRange(m: seq<int>, n: nat, width: nat, T: nat, xs: seq<int>)
    requires AllChoose(m, n, width, T, xs)
    ensures forall v :: 0 <= v < n ==> -1 <= xs[v] < width
  {
    forall v | 0 <= v < n ensures -1 <= xs[v] < width {
      assert Chooses(m, width, T, v, xs[v]);
    }
  }

  lemma ReceiversInRange(D: seq<seq<nat>>, owner: seq<nat>, n: nat, k: nat, del: seq<int>)
    requires OwnedBy(D, n, k, owner) && |del| == n && forall u :: 0 <= u < n ==> -1 <= del[u] < k
    ensures forall u :: 0 <= u < n ==> 0 <= Receiver(owner, del[u], u) < n
  {
  }

  /**
   * The tally voter by voter: candidate c gets the power of exactly the voters whose
   * receiver chose c, each voter's power whole.
   */
  lemma TallyByBallots(D: seq<seq<nat>>, owner: seq<nat>, w: seq<int>, t: seq<int>, q: seq<int>, b: nat, k: nat,
      T: nat, del: seq<int>, cand: seq<int>, c: nat)
    requires OwnedBy(D, |q|, k, owner) && RowsBounded(w, |q|, k, T) && RowsBounded(t, |q|, b, T) && c < b
    requires AllChoose(w, |q|, k, T, del) && AllChoose(t, |q|, b, T, cand)
    ensures Tally(D, w, t, q, b, k, T, c) == PowerOf(q, Cast(owner, del, cand), c, |q|)
  {
    var n := |q|;
    ChoicesInRange(w, n, k, T, del);
    ReceiversInRange(D, owner, n, k, del);
    TallyByWeights(D, w, t, q, b, k, T, cand, c);
    forall v: nat | v < n ensures Weight(D, w, q, k, T, v) == PowerOf(q, Receivers(owner, del), v, n) {
      WeightByVoters(D, w, q, k, T, del, v);
      WeightIsReceived(D, owner, q, k, del, v, n);
    }
    assert Weights(D, w, q, k, T) == Sent(q, Receivers(owner, del), n, n);
    PowerThroughReceivers(owner, q, del, cand, c, n);
  }

  // -------------------------------------------------------------- drawn elections

  /** The column that each drawn row gives the half rounded up. */
  function MajorityColumns(n: nat, width: nat, T: nat, stream: nat -> nat): (xs: seq<int>)
    requires width > 0
    ensures |xs| == n
  {
    seq(n, v requires 0 <= v < n => stream(v * (T / 2 + 1)) % width)
  }

  /** For an odd number of periods every drawn row chooses that column. */
  lemma DrawnChoices(m: seq<int>, n: nat, width: nat, T: nat, stream: nat -> nat)
    requires width > 0 && T % 2 == 1 && RowsDrawn(m, n, width, T, stream, n)
    ensures AllChoose(m, n, width, T, MajorityColumns(n, width, T, stream))
  {
    forall v: nat | v < n ensures Chooses(m, width, T, v, MajorityColumns(n, width, T, stream)[v]) {
      var c: nat := stream(v * (T / 2 + 1)) % width;
      VotingRowEntry(width, T, stream, v, c);
      assert Entry(m, width, v, c) == VotingRow(width, T, stream, v)[c];
    }
  }

  /** Where each voter's power ends in an election of odd length that four streams draw. */
  function DrawnCast(n: nat, b: nat, k: nat, T: nat, owners: nat -> nat, candidates: nat -> nat,
      delegates: nat -> nat): (r: seq<int>)
    requires 0 < k <= n && b > 0
    ensures |r| == n
  {
    seq(n, u requires 0 <= u < n =>
      var holder := Shuffled(n, owners, k)[delegates(u * (T / 2 + 1)) % k];
      candidates(holder * (T / 2 + 1)) % b)
  }

  lemma CastIsDrawn(D: seq<seq<nat>>, owner: seq<nat>, n: nat, b: nat, k: nat, T: nat, owners: nat -> nat,
      candidates: nat -> nat, delegates: nat -> nat)
    requires 0 < k <= n && b > 0 && OwnedBy(D, n, k, owner) && owner == Shuffled(n, owners, k)[..k]
    ensures Cast(owner, MajorityColumns(n, k, T, delegates), MajorityColumns(n, b, T, candidates))
         == DrawnCast(n, b, k, T, owners, candidates, delegates)
  {
    var x := Cast(owner, MajorityColumns(n, k, T, delegates), MajorityColumns(n, b, T, candidates));
    forall u: nat | u < n ensures x[u] == DrawnCast(n, b, k, T, owners, candidates, delegates)[u] {
      var l: nat := delegates(u * (T / 2 + 1)) % k;
      assert owner[l] == Shuffled(n, owners, k)[l];
    }
  }
}
