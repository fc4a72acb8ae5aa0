/**
 * Expansion of per-voter counts into a period schedule (helpers.go
 * periodicChoicesFromCounts and drainOneHot), and the proof that the plaintext echo
 * of full schedules gives the counts back.
 */
module CountExpansion {
  import opened Matrices
  import opened Modular
  import opened Schedules
  import opened Wrappers

  function Occurrences(hist: seq<int>, c: int): nat {
    if hist == [] then 0
    else Occurrences(hist[..|hist| - 1], c) + if hist[|hist| - 1] == c then 1 else 0
  }

  lemma OccurrencesAppend(hist: seq<int>, x: int, c: int)
    ensures Occurrences(hist + [x], c) == Occurrences(hist, c) + if x == c then 1 else 0
  {
    assert (hist + [x])[..|hist|] == hist;
  }

  ghost predicate Rectangular(choices: seq<seq<int>>, n: nat) {
    forall p :: 0 <= p < |choices| ==> |choices[p]| == n
  }

  /** One voter's choices over time. */
  ghost function Column(choices: seq<seq<int>>, n: nat, v: nat): seq<int>
    requires Rectangular(choices, n) && v < n
  {
    seq(|choices|, p requires 0 <= p < |choices| => choices[p][v])
  }

  ghost predicate AbsencesAreSuffix(hist: seq<int>) {
    forall p, q :: 0 <= p < q < |hist| && hist[p] == NO_SUBMISSION ==> hist[q] == NO_SUBMISSION
  }

  /** Every choice is at most the later ones, and nothing follows an absence. */
  ghost predicate Ascending(hist: seq<int>) {
    forall p, q :: 0 <= p < q < |hist| && hist[q] >= 0 ==> 0 <= hist[p] <= hist[q]
  }

  function Excess(total: int, periods: nat): int {
    if periods < total then total - periods else 0
  }

  /** What draining has done to one voter's row after the periods in hist. */
  ghost predicate Drained(counts: seq<nat>, remaining: seq<int>, width: nat, v: nat, hist: seq<int>) {
    && (forall c: nat :: c < width ==>
          && Entry(remaining, width, v, c) >= 0
          && Entry(remaining, width, v, c) + Occurrences(hist, c) == Entry(counts, width, v, c))
    && (forall p :: 0 <= p < |hist| ==> NO_SUBMISSION <= hist[p] < width)
    && AbsencesAreSuffix(hist) && Ascending(hist)
    && (forall p, c: nat :: 0 <= p < |hist| && c < hist[p] ==> Entry(remaining, width, v, c) == 0)
    && RowSum(remaining, width, v, width) == Excess(RowSum(counts, width, v, width), |hist|)
    && (NO_SUBMISSION in hist ==> RowSum(remaining, width, v, width) == 0)
  }

  /** helpers.go drainOneHot: takes one unit from the first non-empty column. */
  method DrainOneHot(remaining: array<int>, n: nat, voter: nat, width: nat) returns (choice: int)
    requires remaining.Length == n * width && voter < n
    requires forall c: nat :: c < width ==> Entry(remaining[..], width, voter, c) >= 0
    modifies remaining
    ensures NO_SUBMISSION <= choice < width
    ensures choice == NO_SUBMISSION ==> forall c: nat :: c < width ==> Entry(old(remaining[..]), width, voter, c) == 0
    ensures choice >= 0 ==>
      && Entry(old(remaining[..]), width, voter, choice) > 0
      && forall c: nat :: c < choice ==> Entry(old(remaining[..]), width, voter, c) == 0
    ensures forall r: nat, c: nat :: c < width ==>
      Entry(remaining[..], width, r, c)
        == Entry(old(remaining[..]), width, r, c) - if choice >= 0 && r == voter && c == choice then 1 else 0
  {
    for col := 0 to width
      invariant remaining[..] == old(remaining[..])
      invariant forall c: nat :: c < col ==> Entry(remaining[..], width, voter, c) == 0
    {
      FlatIndex(n, width, voter, col);
      if remaining[voter * width + col] > 0 {
        AddToEntry(remaining, n, width, voter, col, -1);
        return col;
      }
      assert Entry(remaining[..], width, voter, col) == 0;
    }
    return NO_SUBMISSION;
  }

  lemma DrainStep(counts: seq<nat>, before: seq<int>, after: seq<int>, width: nat, v: nat, hist: seq<int>, choice: int)
    requires Drained(counts, before, width, v, hist)
    requires NO_SUBMISSION <= choice < width
    requires choice == NO_SUBMISSION ==> forall c: nat :: c < width ==> Entry(before, width, v, c) == 0
    requires choice >= 0 ==> Entry(before, width, v, choice) > 0
    requires forall c: nat :: c < choice ==> Entry(before, width, v, c) == 0
    requires forall c: nat :: c < width ==>
      Entry(after, width, v, c) == Entry(before, width, v, c) - if choice >= 0 && c == choice then 1 else 0
    ensures Drained(counts, after, width, v, hist + [choice])
  {
    RowSumZero(before, width, v, width);
    if choice >= 0 {
      RowSumShift(before, after, width, v, width, choice, -1);
    } else {
      RowSumSame(before, v, after, v, width, width);
    }
    assert Ascending(hist + [choice]) by {
      if choice >= 0 {
        forall p | 0 <= p < |hist| ensures 0 <= hist[p] <= choice {
          if hist[p] > choice { assert false; }
        }
      }
    }
    forall c: nat | c < width
      ensures Entry(after, width, v, c) >= 0
      ensures Entry(after, width, v, c) + Occurrences(hist + [choice], c) == Entry(counts, width, v, c)
    {
      OccurrencesAppend(hist, choice, c);
    }
  }

  lemma DrainedSame(counts: seq<nat>, x: seq<int>, y: seq<int>, width: nat, v: nat, hist: seq<int>)
    requires Drained(counts, x, width, v, hist)
    requires forall c: nat :: c < width ==> Entry(x, width, v, c) == Entry(y, width, v, c)
    ensures Drained(counts, y, width, v, hist)
  {
    RowSumSame(x, v, y, v, width, width);
  }

  /** The meaning of a successful expansion. */
  ghost predicate Expands(counts: seq<nat>, choices: seq<seq<int>>, n: nat, width: nat, periods: nat) {
    && |choices| == periods && Rectangular(choices, n)
    && forall v: nat :: v < n ==>
         var hist := Column(choices, n, v);
         && (forall p :: 0 <= p < periods ==> NO_SUBMISSION <= hist[p] < width)
         && (forall c: nat :: c < width ==> Occurrences(hist, c) == Entry(counts, width, v, c))
         && AbsencesAreSuffix(hist) && Ascending(hist)
  }

  method DrainPeriod(counts: seq<nat>, remaining: array<int>, n: nat, width: nat, ghost choices: seq<seq<int>>)
    returns (row: seq<int>)
    requires remaining.Length == n * width && Rectangular(choices, n)
    requires forall v: nat :: v < n ==> Drained(counts, remaining[..], width, v, Column(choices, n, v))
    modifies remaining
    ensures |row| == n
    ensures forall v: nat :: v < n ==> Drained(counts, remaining[..], width, v, Column(choices, n, v) + [row[v]])
  {
    row := [];
    assert forall v: nat :: v < n ==> Column(choices, n, v) + [] == Column(choices, n, v);
    for voter := 0 to n
      invariant |row| == voter
      invariant forall v: nat :: v < n ==>
        Drained(counts, remaining[..], width, v, Column(choices, n, v) + if v < voter then [row[v]] else [])
    {
      ghost var before := remaining[..];
      assert Column(choices, n, voter) + [] == Column(choices, n, voter);
      assert Drained(counts, before, width, voter, Column(choices, n, voter));
      var choice := DrainOneHot(remaining, n, voter, width);
      DrainStep(counts, before, remaining[..], width, voter, Column(choices, n, voter), choice);
      row := row + [choice];
      forall v: nat | v < n
        ensures Drained(counts, remaining[..], width, v, Column(choices, n, v) + if v < voter + 1 then [row[v]] else [])
      {
        if v != voter {
          var hist := Column(choices, n, v) + if v < voter then [row[v]] else [];
          DrainedSame(counts, before, remaining[..], width, v, hist);
        }
      }
    }
  }

  /** helpers.go periodicChoicesFromCounts; None stands for the failed assertion. */
  method PeriodicChoicesFromCounts(counts: seq<nat>, n: nat, width: nat, periods: nat)
    returns (result: Option<seq<seq<int>>>)
    requires width > 0 && periods > 0 && |counts| == n * width
    ensures result.Some? <==> forall v: nat :: v < n ==> RowSum(counts, width, v, width) <= periods
    ensures result.Some? ==> Expands(counts, result.value, n, width, periods)
    ensures result.Some? ==> forall p: nat, v: nat, c: nat :: p < periods && v < n && c < width ==>
      (result.value[p][v] == c <==> RowSum(counts, width, v, c) <= p < RowSum(counts, width, v, c + 1))
  {
    var remaining := new int[|counts|](k requires 0 <= k < |counts| => counts[k]);
    assert remaining[..] == counts;
    var choices: seq<seq<int>> := [];
    forall v: nat | v < n ensures Drained(counts, remaining[..], width, v, Column(choices, n, v)) {
      assert forall c: nat :: c < width ==> Entry(counts, width, v, c) >= 0;
      RowSumZero(counts, width, v, width);
    }
    for period := 0 to periods
      invariant |choices| == period && Rectangular(choices, n)
      invariant forall v: nat :: v < n ==> Drained(counts, remaining[..], width, v, Column(choices, n, v))
    {
      var row := DrainPeriod(counts, remaining, n, width, choices);
      forall v: nat | v < n ensures Column(choices + [row], n, v) == Column(choices, n, v) + [row[v]] {
      }
      choices := choices + [row];
    }
    var k := 0;
    while k < remaining.Length
      invariant 0 <= k <= remaining.Length
      invariant forall j :: 0 <= j < k ==> remaining[j] == 0
    {
      if remaining[k] != 0 {
        break;
      }
      k := k + 1;
    }
    DrainedDecides(remaining[..], n, width, k, counts, choices);
    if k < remaining.Length {
      return None;
    }
    forall p: nat, v: nat, c: nat | p < periods && v < n && c < width
      ensures choices[p][v] == c <==> RowSum(counts, width, v, c) <= p < RowSum(counts, width, v, c + 1)
    {
      ExpandedChoice(counts, choices, n, width, periods, p, v, c);
    }
    return Some(choices);
  }

  /** The buffer is empty exactly when no row has more submissions than periods. */
  lemma DrainedDecides(remaining: seq<int>, n: nat, width: nat, k: nat, counts: seq<nat>, choices: seq<seq<int>>)
    requires width > 0 && k <= |remaining| == n * width && Rectangular(choices, n)
    requires k < |remaining| ==> remaining[k] != 0
    requires forall j :: 0 <= j < k ==> remaining[j] == 0
    requires forall v: nat :: v < n ==> Drained(counts, remaining, width, v, Column(choices, n, v))
    ensures k == |remaining| <==> forall v: nat :: v < n ==> RowSum(counts, width, v, width) <= |choices|
    ensures k == |remaining| ==> Expands(counts, choices, n, width, |choices|)
  {
    if k < |remaining| {
      LeftOver(remaining, n, width, k, counts, choices);
    } else {
      forall v: nat | v < n
        ensures RowSum(counts, width, v, width) <= |choices|
        ensures forall c: nat :: c < width ==> Occurrences(Column(choices, n, v), c) == Entry(counts, width, v, c)
      {
        assert Drained(counts, remaining, width, v, Column(choices, n, v));
        assert forall c: nat :: c < width ==> Entry(remaining, width, v, c) == 0;
        RowSumZero(remaining, width, v, width);
      }
    }
  }

  /** A unit left in the buffer shows a row with more submissions than periods. */
  lemma LeftOver(remaining: seq<int>, n: nat, width: nat, k: nat, counts: seq<nat>, choices: seq<seq<int>>)
    requires width > 0 && k < |remaining| == n * width && remaining[k] != 0 && Rectangular(choices, n)
    requires forall v: nat :: v < n ==> Drained(counts, remaining, width, v, Column(choices, n, v))
    ensures exists v: nat :: v < n && RowSum(counts, width, v, width) > |choices|
  {
    var v, c := k / width, k % width;
    assert k == v * width + c;
    if v >= n { MulMonotone(n, v, width, width); assert false; }
    assert Drained(counts, remaining, width, v, Column(choices, n, v));
    assert Entry(remaining, width, v, c) != 0;
    RowSumZero(remaining, width, v, width);
  }

  // -------------------------------------------------- counts fix the schedule

  /** In an ascending history the choices below c are exactly the first entries. */
  lemma {:induction false} AscendingPrefix(hist: seq<int>, c: nat)
    requires Ascending(hist) && forall q :: 0 <= q < |hist| ==> hist[q] >= NO_SUBMISSION
    ensures OccurrencesBelow(hist, c) <= |hist|
    ensures forall p :: 0 <= p < |hist| ==> (0 <= hist[p] < c <==> p < OccurrencesBelow(hist, c))
  {
    if hist == [] {
      OccurrencesBelowEmpty(c);
    } else {
      var front, last := hist[..|hist| - 1], hist[|hist| - 1];
      assert hist == front + [last];
      AscendingPrefix(front, c);
      OccurrencesBelowStep(front, last, c);
      assert forall p :: 0 <= p < |front| ==> front[p] == hist[p];
    }
  }

  /** Voter v's choice of period p is the column whose units, in column order, p falls among. */
  lemma ExpandedChoice(counts: seq<nat>, choices: seq<seq<int>>, n: nat, width: nat, periods: nat, p: nat, v: nat,
      c: nat)
    requires Expands(counts, choices, n, width, periods) && p < periods && v < n && c < width
    ensures choices[p][v] == c <==> RowSum(counts, width, v, c) <= p < RowSum(counts, width, v, c + 1)
    ensures choices[p][v] == NO_SUBMISSION <==> RowSum(counts, width, v, width) <= p
  {
    var hist := Column(choices, n, v);
    RowSumIsOccurrences(counts, hist, width, v, c);
    RowSumIsOccurrences(counts, hist, width, v, c + 1);
    RowSumIsOccurrences(counts, hist, width, v, width);
    AscendingPrefix(hist, c);
    AscendingPrefix(hist, c + 1);
    AscendingPrefix(hist, width);
    assert hist[p] == choices[p][v];
  }

  /** The counts have only one expansion. */
  lemma ExpansionUnique(counts: seq<nat>, x: seq<seq<int>>, y: seq<seq<int>>, n: nat, width: nat, periods: nat)
    requires Expands(counts, x, n, width, periods) && Expands(counts, y, n, width, periods)
    ensures x == y
  {
    forall p: nat, v: nat | p < periods && v < n ensures x[p][v] == y[p][v] {
      assert Column(x, n, v)[p] == x[p][v] && Column(y, n, v)[p] == y[p][v];
      if 0 <= x[p][v] {
        ExpandedChoice(counts, x, n, width, periods, p, v, x[p][v]);
        ExpandedChoice(counts, y, n, width, periods, p, v, x[p][v]);
      } else if 0 <= y[p][v] {
        ExpandedChoice(counts, x, n, width, periods, p, v, y[p][v]);
        ExpandedChoice(counts, y, n, width, periods, p, v, y[p][v]);
      }
    }
    forall p: nat | p < periods ensures x[p] == y[p] {
    }
  }

  // ------------------------------------------------------------- round trip

  function OccurrencesBelow(hist: seq<int>, width: nat): nat {
    if width == 0 then 0 else OccurrencesBelow(hist, width - 1) + Occurrences(hist, width - 1)
  }

  lemma {:induction false} OccurrencesBelowStep(hist: seq<int>, x: int, width: nat)
    ensures OccurrencesBelow(hist + [x], width) == OccurrencesBelow(hist, width) + if 0 <= x < width then 1 else 0
  {
    if width > 0 {
      OccurrencesBelowStep(hist, x, width - 1);
      OccurrencesAppend(hist, x, width - 1);
    }
  }

  lemma {:induction false} OccurrencesBelowEmpty(width: nat)
    ensures OccurrencesBelow([], width) == 0
  {
    if width > 0 {
      OccurrencesBelowEmpty(width - 1);
    }
  }

  /** A history as long as the sum of its counts has no absences. */
  lemma {:induction false} NoAbsence(hist: seq<int>, width: nat)
    requires forall p :: 0 <= p < |hist| ==> NO_SUBMISSION <= hist[p] < width
    ensures OccurrencesBelow(hist, width) <= |hist|
    ensures OccurrencesBelow(hist, width) == |hist| ==> forall p :: 0 <= p < |hist| ==> hist[p] >= 0
  {
    if hist == [] {
      OccurrencesBelowEmpty(width);
    } else {
      var front := hist[..|hist| - 1];
      assert hist == front + [hist[|hist| - 1]];
      NoAbsence(front, width);
      OccurrencesBelowStep(front, hist[|hist| - 1], width);
    }
  }

  lemma {:induction false} RowSumIsOccurrences(counts: seq<nat>, hist: seq<int>, width: nat, v: nat, c: nat)
    requires c <= width && forall k: nat :: k < width ==> Occurrences(hist, k) == Entry(counts, width, v, k)
    ensures RowSum(counts, width, v, c) == OccurrencesBelow(hist, c)
  {
    if c > 0 {
      RowSumIsOccurrences(counts, hist, width, v, c - 1);
    }
  }

  ghost predicate FullRows(counts: seq<nat>, n: nat, width: nat, periods: nat) {
    forall v: nat :: v < n ==> RowSum(counts, width, v, width) == periods
  }

  lemma FullSchedulePresent(counts: seq<nat>, choices: seq<seq<int>>, n: nat, width: nat, periods: nat, p: nat, v: nat)
    requires Expands(counts, choices, n, width, periods) && FullRows(counts, n, width, periods)
    requires p < periods && v < n
    ensures 0 <= choices[p][v] < width
  {
    var hist := Column(choices, n, v);
    RowSumIsOccurrences(counts, hist, width, v, width);
    NoAbsence(hist, width);
    assert hist[p] == choices[p][v];
  }

  /** Two full expansions form a schedule in which everybody submits every period. */
  lemma FullSchedulesValid(x: seq<nat>, y: seq<nat>, xs: seq<seq<int>>, ys: seq<seq<int>>, n: nat, width: nat,
      otherWidth: nat, periods: nat)
    requires Expands(x, xs, n, width, periods) && FullRows(x, n, width, periods)
    requires Expands(y, ys, n, otherWidth, periods) && FullRows(y, n, otherWidth, periods)
    ensures ValidSchedule(xs, ys, n, width)
    ensures forall p, v :: 0 <= p < periods && 0 <= v < n ==> xs[p][v] >= 0
  {
    forall p, v | 0 <= p < periods && 0 <= v < n
      ensures 0 <= xs[p][v] < width && 0 <= ys[p][v]
    {
      FullSchedulePresent(x, xs, n, width, periods, p, v);
      FullSchedulePresent(y, ys, n, otherWidth, periods, p, v);
    }
  }

  lemma OccurrencesPrefix(hist: seq<int>, m: nat, c: int)
    requires 0 < m <= |hist|
    ensures Occurrences(hist[..m], c) == Occurrences(hist[..m - 1], c) + if hist[m - 1] == c then 1 else 0
  {
    assert hist[..m] == hist[..m - 1] + [hist[m - 1]];
    OccurrencesAppend(hist[..m - 1], hist[m - 1], c);
  }

  lemma {:induction false} EchoOfPresent(xs: seq<seq<int>>, ys: seq<seq<int>>, n: nat, width: nat, v: nat, c: int,
      m: nat)
    requires ValidSchedule(xs, ys, n, width) && Rectangular(xs, n) && v < n && m <= |xs|
    requires forall p :: 0 <= p < |xs| ==> xs[p][v] >= 0
    ensures EchoCount(xs, ys, n, width, v, c, m) == Occurrences(Column(xs, n, v)[..m], c)
  {
    if m > 0 {
      EchoOfPresent(xs, ys, n, width, v, c, m - 1);
      assert ValidPeriod(xs[m - 1], ys[m - 1], n, width);
      OccurrencesPrefix(Column(xs, n, v), m, c);
    }
  }

  /** Expanding full counts and echoing the schedule returns the counts. */
  lemma ExpandThenEcho(x: seq<nat>, y: seq<nat>, xs: seq<seq<int>>, ys: seq<seq<int>>, n: nat, width: nat,
      otherWidth: nat, periods: nat, totals: seq<int>)
    requires |x| == n * width
    requires Expands(x, xs, n, width, periods) && FullRows(x, n, width, periods)
    requires Expands(y, ys, n, otherWidth, periods) && FullRows(y, n, otherWidth, periods)
    ensures ValidSchedule(xs, ys, n, width)
    ensures IsEchoTotals(xs, ys, n, width, periods, totals) <==> totals == x
  {
    FullSchedulesValid(x, y, xs, ys, n, width, otherWidth, periods);
    forall v: nat, c: nat | v < n && c < width
      ensures EchoCount(xs, ys, n, width, v, c, periods) == Entry(x, width, v, c)
    {
      EchoOfPresent(xs, ys, n, width, v, c, periods);
      assert Column(xs, n, v)[..periods] == Column(xs, n, v);
    }
    if IsEchoTotals(xs, ys, n, width, periods, totals) {
      EntriesDetermine(totals, x, n, width);
    }
  }
}
