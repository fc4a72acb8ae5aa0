/**
 * The synthetic election inputs (helpers.go randomDelegationMatrix, randomVotingVector
 * and randomVotingPower). The random source is an arbitrary stream of numbers; the
 * call at a position with bound n yields some value below n.
 */
module Workload {
  import opened Wrappers
  import opened Modular
  import opened ModularHelpers
  import opened Matrices
  import opened Packing
  import opened TallySpec

  function Draw(stream: nat -> nat, position: nat, bound: nat): (x: nat)
    requires bound > 0
    ensures x < bound
  {
    stream(position) % bound
  }

  /** Delegate l sits on voter owner[l] and on no other. */
  ghost predicate OwnedBy(D: seq<seq<nat>>, n: nat, k: nat, owner: seq<nat>) {
    && IsDelegation(D, n, k) && |owner| == k
    && (forall l :: 0 <= l < k ==> owner[l] < n)
    && (forall l, m :: 0 <= l < m < k ==> owner[l] != owner[m])
    && forall v, l :: 0 <= v < n && 0 <= l < k ==> D[v][l] == if v == owner[l] then 1 else 0
  }

  lemma {:induction false} OwnerCounted(D: seq<seq<nat>>, n: nat, k: nat, owner: seq<nat>, l: nat, m: nat)
    requires OwnedBy(D, n, k, owner) && l < k && m <= n
    ensures DelegateCount(D, k, l, m) == if owner[l] < m then 1 else 0
  {
    if m > 0 {
      OwnerCounted(D, n, k, owner, l, m - 1);
    }
  }

  ghost predicate Permutation(perm: seq<nat>, n: nat) {
    && |perm| == n
    && (forall i :: 0 <= i < n ==> perm[i] < n)
    && forall i, j :: 0 <= i < j < n ==> perm[i] != perm[j]
  }

  lemma SwapPermutes(perm: seq<nat>, n: nat, i: nat, j: nat)
    requires Permutation(perm, n) && i < n && j < n
    ensures Permutation(perm[i := perm[j]][j := perm[i]], n)
  {
  }

  /** The first steps of the Fisher-Yates shuffle of 0..n-1 that the stream drives. */
  function Shuffled(n: nat, stream: nat -> nat, steps: nat): (perm: seq<nat>)
    requires steps <= n
    ensures |perm| == n
  {
    if steps == 0 then seq(n, i => i)
    else
      var i, before := steps - 1, Shuffled(n, stream, steps - 1);
      var j := i + Draw(stream, i, n - i);
      before[i := before[j]][j := before[i]]
  }

  lemma {:induction false} ShuffledPermutes(n: nat, stream: nat -> nat, steps: nat)
    requires steps <= n
    ensures Permutation(Shuffled(n, stream, steps), n)
  {
    if steps > 0 {
      ShuffledPermutes(n, stream, steps - 1);
      SwapPermutes(Shuffled(n, stream, steps - 1), n, steps - 1, steps - 1 + Draw(stream, steps - 1, n - (steps - 1)));
    }
  }

  lemma {:induction false} ShuffledContains(n: nat, stream: nat -> nat, steps: nat, x: nat) returns (at: nat)
    requires steps <= n && x < n
    ensures at < n && Shuffled(n, stream, steps)[at] == x
  {
    if steps == 0 {
      at := x;
    } else {
      var i, before := steps - 1, Shuffled(n, stream, steps - 1);
      var j := i + Draw(stream, i, n - i);
      var was := ShuffledContains(n, stream, steps - 1, x);
      at := if was == j then i else if was == i then j else was;
    }
  }

  /** A position is final after its step. */
  lemma {:induction false} PlacedStays(n: nat, stream: nat -> nat, early: nat, late: nat, l: nat)
    requires l < early <= late <= n
    ensures Shuffled(n, stream, early)[l] == Shuffled(n, stream, late)[l]
    decreases late
  {
    if early < late {
      PlacedStays(n, stream, early, late - 1, l);
    }
  }

  /** The shuffle reads only the draws of its own steps. */
  lemma {:induction false} ShuffledReads(n: nat, x: nat -> nat, y: nat -> nat, steps: nat)
    requires steps <= n && forall p: nat :: p < steps ==> x(p) == y(p)
    ensures Shuffled(n, x, steps) == Shuffled(n, y, steps)
  {
    if steps > 0 {
      ShuffledReads(n, x, y, steps - 1);
    }
  }

  function StreamOf(draws: seq<nat>): nat -> nat {
    (p: nat) => if p < |draws| then draws[p] else 0
  }

  lemma ShuffledStep(n: nat, stream: nat -> nat, i: nat, before: seq<nat>, j: nat)
    requires i < n && before == Shuffled(n, stream, i) && j == i + Draw(stream, i, n - i)
    ensures Shuffled(n, stream, i + 1) == before[i := before[j]][j := before[i]]
  {
  }

  /** One more draw brings any number that is not yet placed to the next position. */
  lemma PlaceNext(n: nat, front: seq<nat>, placed: seq<nat>, x: nat) returns (draw: nat)
    requires |front| == |placed| < n && x < n && x !in placed
    requires Shuffled(n, StreamOf(front), |front|)[..|front|] == placed
    ensures Shuffled(n, StreamOf(front + [draw]), |front| + 1)[..|front| + 1] == placed + [x]
  {
    var i, before := |front|, Shuffled(n, StreamOf(front), |front|);
    var at := ShuffledContains(n, StreamOf(front), i, x);
    assert forall l :: 0 <= l < i ==> before[l] == placed[l] by {
      assert before[..i] == placed;
    }
    if at < i { assert false; }
    draw := at - i;
    var stream := StreamOf(front + [draw]);
    ShuffledReads(n, StreamOf(front), stream, i);
    SmallMod(draw, n - i);
    ShuffledStep(n, stream, i, before, at);
    var after := Shuffled(n, stream, i + 1);
    assert after[i] == x && forall l :: 0 <= l < i ==> after[l] == before[..i][l];
  }

  /** Every assignment of the delegates to distinct voters is drawn by some stream. */
  lemma {:induction false} EveryAssignmentOccurs(n: nat, owner: seq<nat>) returns (draws: seq<nat>)
    requires |owner| <= n && forall l :: 0 <= l < |owner| ==> owner[l] < n
    requires forall l, m :: 0 <= l < m < |owner| ==> owner[l] != owner[m]
    ensures |draws| == |owner| && Shuffled(n, StreamOf(draws), |owner|)[..|owner|] == owner
  {
    draws := [];
    if owner != [] {
      var i := |owner| - 1;
      var front := EveryAssignmentOccurs(n, owner[..i]);
      var draw := PlaceNext(n, front, owner[..i], owner[i]);
      draws := front + [draw];
      assert owner == owner[..i] + [owner[i]];
    }
  }

  method Rows(d: array2<nat>) returns (D: seq<seq<nat>>)
    ensures |D| == d.Length0 && forall v :: 0 <= v < |D| ==> |D[v]| == d.Length1
    ensures forall v, l :: 0 <= v < d.Length0 && 0 <= l < d.Length1 ==> D[v][l] == d[v, l]
  {
    D := seq(d.Length0, v requires 0 <= v < d.Length0 reads d =>
      seq(d.Length1, l requires 0 <= l < d.Length1 reads d => d[v, l]));
  }

  /** One step of the shuffle, in place, and the voter it places for good. */
  method ShuffleStep(perm: array<nat>, n: nat, stream: nat -> nat, i: nat, ghost k: nat) returns (voter: nat)
    requires i < k <= n && perm[..] == Shuffled(n, stream, i)
    modifies perm
    ensures perm[..] == Shuffled(n, stream, i + 1) && voter < n && voter == Shuffled(n, stream, k)[i]
  {
    var j := i + Draw(stream, i, n - i);
    ghost var before := perm[..];
    perm[i], perm[j] := perm[j], perm[i];
    ShuffledStep(n, stream, i, before, j);
    assert perm[..] == before[i := before[j]][j := before[i]];
    ShuffledPermutes(n, stream, i + 1);
    PlacedStays(n, stream, i + 1, k, i);
    assert perm[i] == perm[..][i];
    voter := perm[i];
  }

  method PlaceDelegate(d: array2<nat>, i: nat, voter: nat, ghost owner: seq<nat>)
    requires i < d.Length1 <= |owner| && voter < d.Length0 && voter == owner[i]
    requires forall v, l :: 0 <= v < d.Length0 && 0 <= l < d.Length1 ==>
      d[v, l] == if l < i && v == owner[l] then 1 else 0
    modifies d
    ensures forall v, l :: 0 <= v < d.Length0 && 0 <= l < d.Length1 ==>
      d[v, l] == if l < i + 1 && v == owner[l] then 1 else 0
  {
    d[voter, i] := 1;
  }

  /** One 1 per delegate, at the voter that the shuffle places. */
  method PlaceDelegates(n: nat, k: nat, stream: nat -> nat) returns (d: array2<nat>)
    requires 0 < k < n
    ensures fresh(d) && d.Length0 == n && d.Length1 == k
    ensures forall v, l :: 0 <= v < n && 0 <= l < k ==> d[v, l] == if v == Shuffled(n, stream, k)[l] then 1 else 0
  {
    ghost var owner := Shuffled(n, stream, k);
    d := new nat[n, k]((i, j) => 0);
    var perm := new nat[n](i => i);
    for i := 0 to k
      invariant perm[..] == Shuffled(n, stream, i)
      invariant forall v, l :: 0 <= v < n && 0 <= l < k ==> d[v, l] == if l < i && v == owner[l] then 1 else 0
    {
      var voter := ShuffleStep(perm, n, stream, i, k);
      PlaceDelegate(d, i, voter, owner);
    }
  }

  /** helpers.go randomDelegationMatrix: the first k steps of a Fisher-Yates shuffle. */
  method RandomDelegationMatrix(n: nat, k: nat, stream: nat -> nat) returns (D: seq<seq<nat>>, ghost owner: seq<nat>)
    requires 0 < k < n
    ensures OwnedBy(D, n, k, owner) && OneVoterPerDelegate(D, n, k)
    ensures owner == Shuffled(n, stream, k)[..k]
  {
    var d := PlaceDelegates(n, k, stream);
    owner := Shuffled(n, stream, k)[..k];
    ShuffledPermutes(n, stream, k);
    D := Rows(d);
    forall l: nat | l < k ensures DelegateCount(D, k, l, n) == 1 {
      OwnerCounted(D, n, k, owner, l, n);
    }
  }

  /** A row of counts that sums to T and gives one column at least half, rounded up. */
  ghost predicate MajorityRow(m: seq<int>, width: nat, row: nat, T: nat) {
    && (forall c: nat :: c < width ==> Entry(m, width, row, c) >= 0)
    && RowSum(m, width, row, width) == T
    && exists c: nat :: c < width && Entry(m, width, row, c) >= CeilDiv(T, 2)
  }

  /** The row after the majority column and `drawn` more draws of the stream. */
  function DrawnRow(width: nat, T: nat, stream: nat -> nat, start: nat, drawn: nat): (row: seq<int>)
    requires width > 0
    ensures |row| == width
  {
    if drawn == 0 then
      seq(width, c requires 0 <= c < width => if c == Draw(stream, start, width) then CeilDiv(T, 2) else 0)
    else
      var before := DrawnRow(width, T, stream, start, drawn - 1);
      var col := Draw(stream, start + drawn, width);
      before[col := before[col] + 1]
  }

  function DrawsAfterMajority(T: nat): nat
    requires T > 0
  {
    T - CeilDiv(T, 2)
  }

  /** Where the draws of a row start. */
  function RowStart(T: nat, row: nat): nat
    requires T > 0
  {
    if row == 0 then 0 else RowStart(T, row - 1) + 1 + DrawsAfterMajority(T)
  }

  /** The row of the generated matrix as a function of the stream. */
  function VotingRow(width: nat, T: nat, stream: nat -> nat, row: nat): (r: seq<int>)
    requires width > 0 && T > 0
    ensures |r| == width
  {
    DrawnRow(width, T, stream, RowStart(T, row), DrawsAfterMajority(T))
  }

  /** How many of `count` draws from a position on hit a column. */
  function Hits(stream: nat -> nat, from: nat, count: nat, width: nat, c: nat): nat
    requires width > 0
  {
    if count == 0 then 0
    else Hits(stream, from, count - 1, width, c) + if stream(from + count - 1) % width == c then 1 else 0
  }

  lemma {:induction false} DrawnRowHits(width: nat, T: nat, stream: nat -> nat, start: nat, drawn: nat, c: nat)
    requires c < width
    ensures DrawnRow(width, T, stream, start, drawn)[c]
         == (if stream(start) % width == c then CeilDiv(T, 2) else 0) + Hits(stream, start + 1, drawn, width, c)
  {
    if drawn == 0 {
      assert Hits(stream, start + 1, 0, width, c) == 0;
      assert Draw(stream, start, width) == stream(start) % width;
    } else {
      DrawnRowHits(width, T, stream, start, drawn - 1, c);
      assert (start + 1) + drawn - 1 == start + drawn;
      assert Draw(stream, start + drawn, width) == stream(start + drawn) % width;
    }
  }

  lemma {:induction false} RowStartIsProduct(T: nat, row: nat)
    requires T > 0
    ensures CeilDiv(T, 2) == (T + 1) / 2 && DrawsAfterMajority(T) == T / 2
    ensures RowStart(T, row) == row * (T / 2 + 1)
  {
    CeilDivUnique(T, 2, (T + 1) / 2);
    if row > 0 {
      RowStartIsProduct(T, row - 1);
      Distribute(T / 2 + 1, row - 1, 1);
    }
  }

  /** A row takes T/2 + 1 draws: the column that gets the half rounded up, then a column for each other unit. */
  lemma VotingRowEntry(width: nat, T: nat, stream: nat -> nat, row: nat, c: nat)
    requires T > 0 && c < width
    ensures var start := row * (T / 2 + 1);
      VotingRow(width, T, stream, row)[c]
        == (if stream(start) % width == c then (T + 1) / 2 else 0) + Hits(stream, start + 1, T / 2, width, c)
  {
    RowStartIsProduct(T, row);
    DrawnRowHits(width, T, stream, RowStart(T, row), DrawsAfterMajority(T), c);
  }

  ghost predicate RowsDrawn(m: seq<int>, n: nat, width: nat, T: nat, stream: nat -> nat, rows: nat)
    requires width > 0 && T > 0
  {
    && |m| == n * width
    && forall v: nat, c: nat :: c < width ==>
      Entry(m, width, v, c) == if v < rows then VotingRow(width, T, stream, v)[c] else 0
  }

  /** The first rows are drawn, the next one holds its majority and the first further draws. */
  ghost predicate RowStarted(m: seq<int>, n: nat, width: nat, T: nat, stream: nat -> nat, row: nat, drawn: nat)
    requires width > 0 && T > 0
  {
    && |m| == n * width
    && forall v: nat, c: nat :: c < width ==>
         Entry(m, width, v, c)
           == if v < row then VotingRow(width, T, stream, v)[c]
              else if v == row then DrawnRow(width, T, stream, RowStart(T, row), drawn)[c] else 0
  }

  lemma RowDrawsOn(before: seq<int>, after: seq<int>, n: nat, width: nat, T: nat, stream: nat -> nat, row: nat,
      drawn: nat)
    requires width > 0 && T > 0 && RowStarted(before, n, width, T, stream, row, drawn) && |after| == n * width
    requires forall r: nat, c: nat :: c < width ==>
      Entry(after, width, r, c)
        == Entry(before, width, r, c)
           + if r == row && c == Draw(stream, RowStart(T, row) + 1 + drawn, width) then 1 else 0
    ensures RowStarted(after, n, width, T, stream, row, drawn + 1)
  {
  }

  method FillVotingRow(out: array<int>, n: nat, width: nat, row: nat, T: nat, stream: nat -> nat, start: nat)
    returns (position: nat)
    requires row < n && width > 0 && T > 0 && start == RowStart(T, row)
    requires RowsDrawn(out[..], n, width, T, stream, row)
    modifies out
    ensures RowsDrawn(out[..], n, width, T, stream, row + 1) && position == RowStart(T, row + 1)
  {
    position := start;
    var threshold := CeilDiv(T, 2);
    var majorityCol := Draw(stream, position, width);
    position := position + 1;
    SetEntry(out, n, width, row, majorityCol, threshold);
    var remaining := T - threshold;
    for j := 0 to remaining
      invariant position == start + 1 + j && RowStarted(out[..], n, width, T, stream, row, j)
    {
      var col := Draw(stream, position, width);
      position := position + 1;
      ghost var before := out[..];
      AddToEntry(out, n, width, row, col, 1);
      RowDrawsOn(before, out[..], n, width, T, stream, row, j);
    }
  }

  /** helpers.go randomVotingVector: every row is the drawn one. */
  method RandomVotingVector(rowCount: nat, colCount: nat, T: nat, stream: nat -> nat) returns (votes: seq<int>)
    requires colCount > 0 && T > 0
    ensures RowsDrawn(votes, rowCount, colCount, T, stream, rowCount)
    ensures forall v: nat, c: nat :: v < rowCount && c < colCount ==>
      Entry(votes, colCount, v, c)
        == (if stream(v * (T / 2 + 1)) % colCount == c then (T + 1) / 2 else 0)
           + Hits(stream, v * (T / 2 + 1) + 1, T / 2, colCount, c)
  {
    var out := NewMatrix(rowCount, colCount);
    var position := 0;
    for i := 0 to rowCount
      invariant RowsDrawn(out[..], rowCount, colCount, T, stream, i) && position == RowStart(T, i)
    {
      position := FillVotingRow(out, rowCount, colCount, i, T, stream, position);
    }
    votes := out[..];
    forall v: nat, c: nat | v < rowCount && c < colCount
      ensures VotingRow(colCount, T, stream, v)[c]
        == (if stream(v * (T / 2 + 1)) % colCount == c then (T + 1) / 2 else 0)
           + Hits(stream, v * (T / 2 + 1) + 1, T / 2, colCount, c)
    {
      VotingRowEntry(colCount, T, stream, v, c);
    }
  }

  lemma {:induction false} DrawnRowFacts(width: nat, T: nat, stream: nat -> nat, start: nat, drawn: nat)
    requires width > 0
    ensures var r := DrawnRow(width, T, stream, start, drawn);
      && (forall c :: 0 <= c < width ==> r[c] >= 0)
      && r[Draw(stream, start, width)] >= CeilDiv(T, 2)
      && RowSum(r, width, 0, width) == CeilDiv(T, 2) + drawn
  {
    var r := DrawnRow(width, T, stream, start, drawn);
    if drawn == 0 {
      var zeros: seq<int> := seq(width, _ => 0);
      RowSumZero(zeros, width, 0, width);
      RowSumShift(zeros, r, width, 0, width, Draw(stream, start, width), CeilDiv(T, 2));
    } else {
      DrawnRowFacts(width, T, stream, start, drawn - 1);
      RowSumShift(DrawnRow(width, T, stream, start, drawn - 1), r, width, 0, width,
                  Draw(stream, start + drawn, width), 1);
    }
  }

  /** For all streams a generated row sums to T and has an entry of at least half, rounded up. */
  lemma VotingRowIsMajority(width: nat, T: nat, stream: nat -> nat, row: nat)
    requires width > 0 && T > 0
    ensures MajorityRow(VotingRow(width, T, stream, row), width, 0, T)
  {
    var start := RowStart(T, row);
    DrawnRowFacts(width, T, stream, start, DrawsAfterMajority(T));
    assert Entry(VotingRow(width, T, stream, row), width, 0, Draw(stream, start, width)) >= CeilDiv(T, 2);
  }

  /** The rows of the generated matrix have the sums and selections of the drawn rows. */
  lemma DrawnMatrixRow(m: seq<int>, n: nat, width: nat, T: nat, stream: nat -> nat, row: nat)
    requires width > 0 && T > 0 && row < n && RowsDrawn(m, n, width, T, stream, n)
    ensures MajorityRow(m, width, row, T)
    ensures RowSum(Selected(m, T), width, row, width)
      == RowSum(Selected(VotingRow(width, T, stream, row), T), width, 0, width)
  {
    var r := VotingRow(width, T, stream, row);
    VotingRowIsMajority(width, T, stream, row);
    RowSumSame(m, row, r, 0, width, width);
    var c: nat :| c < width && Entry(r, width, 0, c) >= CeilDiv(T, 2);
    assert Entry(m, width, row, c) >= CeilDiv(T, 2);
    forall k: nat | k < width ensures Entry(Selected(m, T), width, row, k) == Entry(Selected(r, T), width, 0, k) {
      SelectedEntry(m, T, n, width, row, k);
      SelectedEntry(r, T, 1, width, 0, k);
    }
    RowSumSame(Selected(m, T), row, Selected(r, T), 0, width, width);
  }

  // ------------------------------------------------ when a generated row selects

  /** A majority row selects exactly one column when T is odd or there is only one column. */
  lemma MajoritySelects(m: seq<int>, n: nat, width: nat, T: nat, row: nat)
    requires RowsBounded(m, n, width, T) && row < n && T > 0 && (T % 2 == 1 || width == 1)
    requires MajorityRow(m, width, row, T)
    ensures RowSum(Selected(m, T), width, row, width) == 1
  {
    AtMostOneSelected(m, n, width, T, row);
    var c: nat :| c < width && Entry(m, width, row, c) >= CeilDiv(T, 2);
    if width == 1 {
      assert RowSum(m, width, row, 1) == RowSum(m, width, row, 0) + Entry(m, width, row, 0);
    }
    SelectedEntry(m, T, n, width, row, c);
    SelectedNonNegative(m, T, n, width);
    RowSumZero(Selected(m, T), width, row, width);
  }

  /** The stream that draws column 0 first and column 1 ever after. */
  function SplitStream(position: nat): nat {
    if position == 0 then 0 else 1
  }

  lemma {:induction false} SplitRow(width: nat, T: nat, drawn: nat)
    requires width > 1
    ensures forall c :: 0 <= c < width ==>
      DrawnRow(width, T, SplitStream, 0, drawn)[c] == if c == 0 then CeilDiv(T, 2) else if c == 1 then drawn else 0
  {
    SmallMod(0, width);
    SmallMod(1, width);
    assert Draw(SplitStream, 0, width) == 0;
    if drawn > 0 {
      assert Draw(SplitStream, 0 + drawn, width) == 1;
      SplitRow(width, T, drawn - 1);
    }
  }

  /** For even T and two columns or more, the first row of that stream selects nobody. */
  lemma EvenSplitSelectsNobody(width: nat, T: nat)
    requires width > 1 && T > 0 && T % 2 == 0
    ensures RowSum(Selected(VotingRow(width, T, SplitStream, 0), T), width, 0, width) == 0
  {
    var r := VotingRow(width, T, SplitStream, 0);
    SplitRow(width, T, DrawsAfterMajority(T));
    forall c: nat | c < width ensures Entry(Selected(r, T), width, 0, c) == 0 {
      SelectedEntry(r, T, 1, width, 0, c);
    }
    RowSumZero(Selected(r, T), width, 0, width);
  }

  /**
   * Every row that can be drawn, for all streams, selects exactly one column if and
   * only if T is odd or there is only one column.
   */
  lemma EveryDrawnRowSelects(width: nat, T: nat)
    requires width > 0 && T > 0
    ensures (forall stream: nat -> nat, row: nat ::
               RowSum(Selected(VotingRow(width, T, stream, row), T), width, 0, width) == 1)
      <==> T % 2 == 1 || width == 1
  {
    if T % 2 == 1 || width == 1 {
      forall stream: nat -> nat, row: nat
        ensures RowSum(Selected(VotingRow(width, T, stream, row), T), width, 0, width) == 1
      {
        VotingRowIsMajority(width, T, stream, row);
        assert RowsBounded(VotingRow(width, T, stream, row), 1, width, T);
        MajoritySelects(VotingRow(width, T, stream, row), 1, width, T, 0);
      }
    } else {
      EvenSplitSelectsNobody(width, T);
      assert RowSum(Selected(VotingRow(width, T, SplitStream, 0), T), width, 0, width) != 1;
    }
  }

  /** helpers.go randomVotingPower. */
  method RandomVotingPower(n: nat, qMax: nat, stream: nat -> nat) returns (q: seq<nat>)
    requires qMax > 0
    ensures |q| == n && forall i :: 0 <= i < n ==> 1 <= q[i] <= qMax && q[i] == 1 + stream(i) % qMax
    ensures SumOf(q, n) <= n * qMax
  {
    var out := new nat[n](_ => 0);
    for i := 0 to n
      invariant forall j :: 0 <= j < i ==> 1 <= out[j] <= qMax && out[j] == 1 + stream(j) % qMax
    {
      out[i] := 1 + Draw(stream, i, qMax);
    }
    q := out[..];
    PowerBounded(q, qMax, n);
  }

  lemma {:induction false} PowerBounded(q: seq<nat>, qMax: nat, n: nat)
    requires n <= |q| && forall i :: 0 <= i < |q| ==> q[i] <= qMax
    ensures SumOf(q, n) <= n * qMax
  {
    if n > 0 {
      PowerBounded(q, qMax, n - 1);
      Distribute(qMax, n - 1, 1);
    }
  }

  lemma {:induction false} SumGrows(q: seq<nat>, low: nat, high: nat)
    requires low <= high <= |q|
    ensures 0 <= SumOf(q, low) <= SumOf(q, high)
  {
    if low < high {
      SumGrows(q, low, high - 1);
    } else if low > 0 {
      SumGrows(q, low - 1, low - 1);
    }
  }

  /** A wrapped uint64 sum is smaller than its first operand exactly when the sum overflows. */
  lemma OverflowDetected(total: nat, x: nat)
    requires total < TWO_64 && x < TWO_64
    ensures Wrap64(total + x) >= total <==> total + x < TWO_64
    ensures total + x < TWO_64 ==> Wrap64(total + x) == total + x
  {
    if total + x < TWO_64 {
      Wrap64Small(total + x);
    } else {
      DivModUnique(total + x, 1, total + x - TWO_64, TWO_64);
    }
  }

  /** helpers.go sumUint64; None stands for the failed overflow assertion. */
  method SumUint64(v: seq<nat>) returns (sum: Option<nat>)
    requires forall i :: 0 <= i < |v| ==> v[i] < TWO_64
    ensures sum == if SumOf(v, |v|) < TWO_64 then Some(SumOf(v, |v|)) else None
  {
    var total: nat := 0;
    for i := 0 to |v|
      invariant total == SumOf(v, i) < TWO_64
    {
      OverflowDetected(total, v[i]);
      if Wrap64(total + v[i]) < total {
        SumGrows(v, i + 1, |v|);
        return None;
      }
      total := Wrap64(total + v[i]);
    }
    return Some(total);
  }
}
