/**
 Walk-forward validation: a window slides over the matches, trained on the days before
 `current_date` and tested on the days from it. Instants are integers, a day is `DAY` of them.
 */
module WalkForward {
  import opened Arithmetic
  import opened Selections

  /** Nanoseconds in a day. */
  const DAY := 86_400_000_000_000

  /** A match: its date, and its features and result, which the split never looks at. */
  datatype Match<D> = Match(date: int, data: D)

  datatype Settings = Settings(trainDays: int, testDays: int, minTrainSamples: int)

  datatype Window<D> = Window(
    id: nat, trainStart: int, trainEnd: int, testStart: int, testEnd: int,
    train: seq<Match<D>>, test: seq<Match<D>>
  )

  function MinDate<D>(rows: seq<Match<D>>): (d: int)
    requires rows != []
    ensures forall i :: 0 <= i < |rows| ==> d <= rows[i].date
    ensures exists i :: 0 <= i < |rows| && rows[i].date == d
  {
    if |rows| == 1 then rows[0].date
    else var m := MinDate(rows[1..]); if rows[0].date < m then rows[0].date else m
  }

  function MaxDate<D>(rows: seq<Match<D>>): (d: int)
    requires rows != []
    ensures forall i :: 0 <= i < |rows| ==> rows[i].date <= d
    ensures exists i :: 0 <= i < |rows| && rows[i].date == d
  {
    if |rows| == 1 then rows[0].date
    else var m := MaxDate(rows[1..]); if rows[0].date > m then rows[0].date else m
  }

  /** The rows dated in `[from, until)`, in the frame's order. */
  function Select<D>(rows: seq<Match<D>>, from: int, until: int): seq<Match<D>> {
    if rows == [] then []
    else if from <= rows[0].date < until then [rows[0]] + Select(rows[1..], from, until)
    else Select(rows[1..], from, until)
  }

  // ---------------------------------------------------------------------------------------
  // What each round of the loop sees
  // ---------------------------------------------------------------------------------------

  function First<D>(rows: seq<Match<D>>, s: Settings): int
    requires rows != []
  {
    MinDate(rows) + s.trainDays * DAY
  }

  /** `current_date` in round `k`, counted from 0. */
  function Current(first: int, s: Settings, k: nat): int {
    if k == 0 then first else Current(first, s, k - 1) + s.testDays * DAY
  }

  /** The number of rounds: as long as `current_date` is before `last`. */
  function Rounds(current: int, last: int, s: Settings): nat
    requires s.testDays > 0
    decreases if current < last then last - current else 0
  {
    if current < last then 1 + Rounds(current + s.testDays * DAY, last, s) else 0
  }

  function WindowOf<D>(rows: seq<Match<D>>, s: Settings, current: int, id: nat): Window<D> {
    var trainStart, testEnd := current - s.trainDays * DAY, current + s.testDays * DAY;
    Window(id, trainStart, current, current, testEnd,
           Select(rows, trainStart, current), Select(rows, current, testEnd))
  }

  predicate Enough<D>(w: Window<D>, s: Settings) {
    |w.train| >= s.minTrainSamples && |w.test| > 0
  }

  /** What rounds `0..n` yield. */
  function Yielded<D>(rows: seq<Match<D>>, s: Settings, first: int, n: nat): seq<Window<D>> {
    if n == 0 then []
    else
      var w := WindowOf(rows, s, Current(first, s, n - 1), n);
      Yielded(rows, s, first, n - 1) + if Enough(w, s) then [w] else []
  }

  /** The loop has an end: there is nothing to do, or every round moves on. */
  predicate Ends<D>(rows: seq<Match<D>>, s: Settings) {
    rows == [] || s.testDays > 0 || First(rows, s) >= MaxDate(rows)
  }

  function AllWindows<D>(rows: seq<Match<D>>, s: Settings): seq<Window<D>>
    requires Ends(rows, s)
  {
    if rows == [] || First(rows, s) >= MaxDate(rows) then []
    else Yielded(rows, s, First(rows, s), Rounds(First(rows, s), MaxDate(rows), s))
  }

  // ---------------------------------------------------------------------------------------
  // What a walk is, told without the loop
  // ---------------------------------------------------------------------------------------

  function DatedIn<D>(from: int, until: int): Match<D> -> bool {
    (m: Match<D>) => from <= m.date < until
  }

  /** Where window `k`, counted from 1, starts testing: after the training days, one step further each time. */
  function StartOf(first: int, s: Settings, k: nat): int {
    first + (s.trainDays + (k - 1) * s.testDays) * DAY
  }

  ghost predicate SomeAfter<D>(rows: seq<Match<D>>, instant: int) {
    exists i :: 0 <= i < |rows| && instant < rows[i].date
  }

  /** Up to window `k` there is always a match dated after the start of testing. */
  ghost predicate Reached<D>(rows: seq<Match<D>>, s: Settings, first: int, k: nat) {
    forall j: nat :: 1 <= j <= k ==> SomeAfter(rows, StartOf(first, s, j))
  }

  /** Window `k` is reached, enough matches are dated in the days before it, and some in the days from it. */
  ghost predicate Wanted<D>(rows: seq<Match<D>>, s: Settings, first: int, k: nat) {
    var start := StartOf(first, s, k);
    && Reached(rows, s, first, k)
    && Count(rows, DatedIn(start - s.trainDays * DAY, start)) >= s.minTrainSamples
    && Count(rows, DatedIn(start, start + s.testDays * DAY)) > 0
  }

  predicate HasBounds<D>(w: Window<D>, s: Settings, start: int) {
    && w.testStart == w.trainEnd == start
    && w.trainStart == start - s.trainDays * DAY && w.testEnd == start + s.testDays * DAY
  }

  /** Exactly the matches between the bounds, in order. */
  ghost predicate HasSets<D>(w: Window<D>, rows: seq<Match<D>>) {
    && IsSelection(w.train, rows, DatedIn(w.trainStart, w.trainEnd))
    && IsSelection(w.test, rows, DatedIn(w.testStart, w.testEnd))
  }

  ghost predicate IsWindow<D>(rows: seq<Match<D>>, s: Settings, first: int, w: Window<D>) {
    w.id >= 1 && HasBounds(w, s, StartOf(first, s, w.id)) && HasSets(w, rows)
  }

  /** Exactly the wanted windows, with ascending numbers; `first` is the earliest date. */
  ghost predicate IsWalk<D>(rows: seq<Match<D>>, s: Settings, first: int, windows: seq<Window<D>>) {
    && (forall i, j :: 0 <= i < j < |windows| ==> windows[i].id < windows[j].id)
    && (forall i :: 0 <= i < |windows| ==> IsWindow(rows, s, first, windows[i]))
    && forall k: nat :: 1 <= k ==>
         (Wanted(rows, s, first, k) <==> exists i :: 0 <= i < |windows| && windows[i].id == k)
  }

  /** The generator, run to its end; with no rows neither bound exists and the loop never starts. */
  method Validate<D>(rows: seq<Match<D>>, s: Settings) returns (windows: seq<Window<D>>)
    requires Ends(rows, s)
    ensures windows == AllWindows(rows, s)
    ensures if rows == [] then windows == [] else IsWalk(rows, s, MinDate(rows), windows)
  {
    windows := [];
    if rows == [] {
      return;
    }
    AllWindowsAreWalk(rows, s);
    var minDate, maxDate := MinDate(rows), MaxDate(rows);
    var windowId := 0;
    var currentDate := minDate + s.trainDays * DAY;
    while currentDate < maxDate
      invariant currentDate == Current(First(rows, s), s, windowId)
      invariant windows == Yielded(rows, s, First(rows, s), windowId)
      invariant s.testDays > 0 ==> windowId + Rounds(currentDate, maxDate, s) == Rounds(First(rows, s), maxDate, s)
      invariant s.testDays > 0 || (currentDate >= maxDate && windowId == 0)
      decreases maxDate - currentDate
    {
      windowId := windowId + 1;
      var trainStart := currentDate - s.trainDays * DAY;
      var testEnd := currentDate + s.testDays * DAY;
      var train := Select(rows, trainStart, currentDate);
      var test := Select(rows, currentDate, testEnd);
      if |train| < s.minTrainSamples || |test| == 0 {
        currentDate := currentDate + s.testDays * DAY;
        continue;
      }
      windows := windows + [Window(windowId, trainStart, currentDate, currentDate, testEnd, train, test)];
      currentDate := currentDate + s.testDays * DAY;
    }
  }

  // ---------------------------------------------------------------------------------------
  // The test intervals tile time
  // ---------------------------------------------------------------------------------------

  /** The date lies in the test interval of round `k`. */
  predicate TestedIn(first: int, s: Settings, k: nat, date: int) {
    Current(first, s, k) <= date < Current(first, s, k + 1)
  }

  lemma {:induction false} CurrentAscends(first: int, s: Settings, k: nat, l: nat)
    requires s.testDays > 0 && k < l
    ensures Current(first, s, k + 1) <= Current(first, s, l)
    decreases l
  {
    if k + 1 < l {
      CurrentAscends(first, s, k, l - 1);
    }
  }

  /** No date lies in two test intervals. */
  lemma RoundsDisjoint(first: int, s: Settings, k: nat, l: nat, date: int)
    requires s.testDays > 0 && TestedIn(first, s, k, date) && TestedIn(first, s, l, date)
    ensures k == l
  {
    if k < l {
      CurrentAscends(first, s, k, l);
    } else if l < k {
      CurrentAscends(first, s, l, k);
    }
  }

  /** The rounds stop at the first `current_date` that has reached the last date. */
  lemma {:induction false} RoundsStop(first: int, last: int, s: Settings, k: nat)
    requires s.testDays > 0
    ensures k < Rounds(first, last, s) <==> Current(first, s, k) < last
    decreases k
  {
    if k == 0 {
    } else if first < last {
      RoundsStop(first + s.testDays * DAY, last, s, k - 1);
      CurrentShift(first, s, k);
    } else {
      CurrentAscends(first, s, 0, k);
    }
  }

  lemma {:induction false} NeverEnds(first: int, last: int, s: Settings, k: nat)
    requires s.testDays <= 0 && first < last
    ensures Current(first, s, k) < last
    decreases k
  {
    if k > 0 {
      NeverEnds(first, last, s, k - 1);
    }
  }

  /** Some round is reached in which the loop stops exactly when `Ends` says so. */
  lemma LoopEndsIff<D>(rows: seq<Match<D>>, s: Settings)
    requires rows != []
    ensures (exists k: nat :: Current(First(rows, s), s, k) >= MaxDate(rows)) <==> Ends(rows, s)
  {
    var first, last := First(rows, s), MaxDate(rows);
    if s.testDays > 0 {
      var n := Rounds(first, last, s);
      RoundsStop(first, last, s, n);
      assert Current(first, s, n) >= last;
    } else if first < last {
      forall k: nat
        ensures Current(first, s, k) < last
      {
        NeverEnds(first, last, s, k);
      }
    } else {
      assert Current(first, s, 0) >= last;
    }
  }

  lemma {:induction false} CurrentShift(first: int, s: Settings, k: nat)
    requires k > 0
    ensures Current(first, s, k) == Current(first + s.testDays * DAY, s, k - 1)
    decreases k
  {
    if k > 1 {
      CurrentShift(first, s, k - 1);
    }
  }

  lemma {:induction false} CoveringRound(first: int, s: Settings, date: int, k: nat) returns (l: nat)
    requires s.testDays > 0 && Current(first, s, k) <= date
    ensures TestedIn(first, s, l, date)
    decreases date - Current(first, s, k)
  {
    if date < Current(first, s, k + 1) {
      l := k;
    } else {
      l := CoveringRound(first, s, date, k + 1);
    }
  }

  /** The match is in the test set of round `k`. */
  ghost predicate TestedInRound<D>(rows: seq<Match<D>>, s: Settings, k: nat, m: Match<D>)
    requires rows != [] && s.testDays > 0
  {
    && k < Rounds(First(rows, s), MaxDate(rows), s)
    && m in WindowOf(rows, s, Current(First(rows, s), s, k), k + 1).test
  }

  lemma TestedMeansInterval<D>(rows: seq<Match<D>>, s: Settings, k: nat, m: Match<D>)
    requires rows != [] && s.testDays > 0 && m in rows
    ensures TestedInRound(rows, s, k, m) <==>
              k < Rounds(First(rows, s), MaxDate(rows), s) && TestedIn(First(rows, s), s, k, m.date)
  {
    var current := Current(First(rows, s), s, k);
    SelectIsExact(rows, current, current + s.testDays * DAY);
    assert TestedIn(First(rows, s), s, k, m.date) <==> current <= m.date < current + s.testDays * DAY;
    assert WindowOf(rows, s, current, k + 1).test == Select(rows, current, current + s.testDays * DAY);
  }

  /** Every match dated from the first `current_date` up to, not including, the last date is in exactly one test set. */
  lemma TestIntervalsTile<D>(rows: seq<Match<D>>, s: Settings, m: Match<D>)
    requires rows != [] && s.testDays > 0 && m in rows && First(rows, s) <= m.date < MaxDate(rows)
    ensures exists k: nat :: TestedInRound(rows, s, k, m)
    ensures forall k: nat, l: nat :: TestedInRound(rows, s, k, m) && TestedInRound(rows, s, l, m) ==> k == l
  {
    var first := First(rows, s);
    var k := CoveringRound(first, s, m.date, 0);
    RoundsStop(first, MaxDate(rows), s, k);
    TestedMeansInterval(rows, s, k, m);
    forall k: nat, l: nat | TestedInRound(rows, s, k, m) && TestedInRound(rows, s, l, m)
      ensures k == l
    {
      TestedMeansInterval(rows, s, k, m);
      TestedMeansInterval(rows, s, l, m);
      RoundsDisjoint(first, s, k, l, m.date);
    }
  }

  /** A match before the first `current_date` is never tested. */
  lemma EarlyMatchesUntested<D>(rows: seq<Match<D>>, s: Settings, m: Match<D>, k: nat)
    requires rows != [] && s.testDays > 0 && m in rows && m.date < First(rows, s)
    ensures !TestedInRound(rows, s, k, m)
  {
    TestedMeansInterval(rows, s, k, m);
    if k > 0 {
      CurrentAscends(First(rows, s), s, 0, k);
    }
  }

  lemma {:induction false} CurrentIsLinear(first: int, s: Settings, k: nat)
    ensures Current(first, s, k) == first + k * (s.testDays * DAY)
    decreases k
  {
    if k > 0 {
      CurrentIsLinear(first, s, k - 1);
    }
  }

  lemma MultipleBetween(step: int, span: int, n: nat, rest: int)
    requires 0 <= rest < step && span == n * step - rest
    ensures span % step == 0 <==> rest == 0
  {
    if rest == 0 {
      QuotientUnique(step, n, 0);
    } else {
      assert span == (n - 1) * step + (step - rest);
      QuotientUnique(step, n - 1, step - rest);
    }
  }

  lemma LastInIntervalIff(first: int, last: int, s: Settings)
    requires s.testDays > 0
    ensures (exists k :: 0 <= k < Rounds(first, last, s) && TestedIn(first, s, k, last))
            <==> first < last && (last - first) % (s.testDays * DAY) != 0
  {
    var n := Rounds(first, last, s);
    var step := s.testDays * DAY;
    RoundsStop(first, last, s, n);
    if n > 0 {
      RoundsStop(first, last, s, n - 1);
      CurrentIsLinear(first, s, n);
      MultipleBetween(step, last - first, n, Current(first, s, n) - last);
      if Current(first, s, n) > last {
        assert TestedIn(first, s, n - 1, last);
      }
      forall k | 0 <= k < n && TestedIn(first, s, k, last)
        ensures Current(first, s, n) > last
      {
        CurrentAscends(first, s, k, n);
      }
    }
  }

  /**
   The matches of the last date itself are tested exactly when the span from the first
   `current_date` is positive and no whole number of steps: otherwise the loop stops on them.
   */
  lemma LastDateTestedIff<D>(rows: seq<Match<D>>, s: Settings, m: Match<D>)
    requires rows != [] && s.testDays > 0 && m in rows && m.date == MaxDate(rows)
    ensures (exists k: nat :: TestedInRound(rows, s, k, m)) <==>
              First(rows, s) < m.date && (m.date - First(rows, s)) % (s.testDays * DAY) != 0
  {
    LastInIntervalIff(First(rows, s), m.date, s);
    forall k: nat
      ensures TestedInRound(rows, s, k, m)
              <==> k < Rounds(First(rows, s), m.date, s) && TestedIn(First(rows, s), s, k, m.date)
    {
      TestedMeansInterval(rows, s, k, m);
    }
  }

  // ---------------------------------------------------------------------------------------
  // No future leakage
  // ---------------------------------------------------------------------------------------

  lemma {:induction false} SelectIsExact<D>(rows: seq<Match<D>>, from: int, until: int)
    ensures forall m :: m in Select(rows, from, until) <==> m in rows && from <= m.date < until
  {
    if rows != [] {
      SelectIsExact(rows[1..], from, until);
    }
  }

  /** Window `w` of a run comes from round `w.id - 1`. */
  lemma {:induction false} YieldedRound<D>(rows: seq<Match<D>>, s: Settings, first: int, n: nat, i: nat)
    requires i < |Yielded(rows, s, first, n)|
    ensures var w := Yielded(rows, s, first, n)[i];
            1 <= w.id <= n && w == WindowOf(rows, s, Current(first, s, w.id - 1), w.id) && Enough(w, s)
    decreases n
  {
    if i < |Yielded(rows, s, first, n - 1)| {
      YieldedRound(rows, s, first, n - 1, i);
    }
  }

  lemma {:induction false} IdsAscend<D>(rows: seq<Match<D>>, s: Settings, first: int, n: nat, i: nat, j: nat)
    requires i < j < |Yielded(rows, s, first, n)|
    ensures Yielded(rows, s, first, n)[i].id < Yielded(rows, s, first, n)[j].id
    decreases n
  {
    var before := Yielded(rows, s, first, n - 1);
    if j < |before| {
      IdsAscend(rows, s, first, n - 1, i, j);
    } else {
      YieldedRound(rows, s, first, n - 1, i);
    }
  }

  /** Training matches are before the start of testing, test matches are not, and both are rows of the frame. */
  ghost predicate NoOverlap<D>(rows: seq<Match<D>>, w: Window<D>) {
    && (forall i :: 0 <= i < |w.train| ==> w.train[i] in rows && w.train[i].date < w.testStart)
    && (forall i :: 0 <= i < |w.test| ==> w.test[i] in rows && w.testStart <= w.test[i].date)
  }

  lemma WindowSplits<D>(rows: seq<Match<D>>, w: Window<D>)
    requires w.train == Select(rows, w.trainStart, w.testStart) && w.test == Select(rows, w.testStart, w.testEnd)
    ensures NoOverlap(rows, w)
  {
    SelectIsExact(rows, w.trainStart, w.testStart);
    SelectIsExact(rows, w.testStart, w.testEnd);
  }

  /** In every window, each training match is strictly before, and each test match not before, the start of testing. */
  lemma TrainBeforeTest<D>(rows: seq<Match<D>>, s: Settings, i: nat)
    requires Ends(rows, s) && i < |AllWindows(rows, s)|
    ensures NoOverlap(rows, AllWindows(rows, s)[i])
  {
    var w := AllWindows(rows, s)[i];
    YieldedRound(rows, s, First(rows, s), Rounds(First(rows, s), MaxDate(rows), s), i);
    WindowSplits(rows, w);
  }

  lemma SelectionsApart<D>(rows: seq<Match<D>>, a: int, b: int, c: int, d: int)
    requires b <= c
    ensures forall m :: m in Select(rows, a, b) ==> m !in Select(rows, c, d)
  {
    SelectIsExact(rows, a, b);
    SelectIsExact(rows, c, d);
  }

  /** Later windows have larger ids, and no match is tested in two windows. */
  lemma WindowsApart<D>(rows: seq<Match<D>>, s: Settings, i: nat, j: nat)
    requires Ends(rows, s) && i < j < |AllWindows(rows, s)|
    ensures AllWindows(rows, s)[i].id < AllWindows(rows, s)[j].id
    ensures forall m :: m in AllWindows(rows, s)[i].test ==> m !in AllWindows(rows, s)[j].test
  {
    var first := First(rows, s);
    var n := Rounds(first, MaxDate(rows), s);
    var v, w := AllWindows(rows, s)[i], AllWindows(rows, s)[j];
    YieldedRound(rows, s, first, n, i);
    YieldedRound(rows, s, first, n, j);
    IdsAscend(rows, s, first, n, i, j);
    CurrentAscends(first, s, v.id - 1, w.id - 1);
    assert v.testEnd == Current(first, s, v.id) <= w.testStart;
    SelectionsApart(rows, v.testStart, v.testEnd, w.testStart, w.testEnd);
  }

  /** The two frames have the same dates, and the same matches before the cut. */
  ghost predicate AgreeBefore<D>(rows: seq<Match<D>>, other: seq<Match<D>>, cut: int) {
    && |rows| == |other|
    && forall i :: 0 <= i < |rows| ==> rows[i].date == other[i].date && (rows[i].date < cut ==> rows[i] == other[i])
  }

  lemma {:induction false} SelectAgrees<D>(rows: seq<Match<D>>, other: seq<Match<D>>, cut: int, from: int, until: int)
    requires AgreeBefore(rows, other, cut)
    ensures |Select(rows, from, until)| == |Select(other, from, until)|
    ensures until <= cut ==> Select(rows, from, until) == Select(other, from, until)
    decreases |rows|
  {
    if rows != [] {
      assert AgreeBefore(rows[1..], other[1..], cut);
      SelectAgrees(rows[1..], other[1..], cut, from, until);
    }
  }

  lemma {:induction false} BoundsAgree<D>(rows: seq<Match<D>>, other: seq<Match<D>>, cut: int)
    requires rows != [] && AgreeBefore(rows, other, cut)
    ensures MinDate(rows) == MinDate(other) && MaxDate(rows) == MaxDate(other)
    decreases |rows|
  {
    if |rows| > 1 {
      assert AgreeBefore(rows[1..], other[1..], cut);
      BoundsAgree(rows[1..], other[1..], cut);
    }
  }

  /** The windows have the same frames, and the same training set if they start testing by the cut. */
  predicate SameTraining<D(==)>(v: Window<D>, w: Window<D>, cut: int) {
    && v.id == w.id && v.trainStart == w.trainStart && v.testStart == w.testStart && v.testEnd == w.testEnd
    && |v.train| == |w.train| && |v.test| == |w.test|
    && (v.testStart <= cut ==> v.train == w.train)
  }

  lemma {:induction false} YieldedAgree<D>(
    rows: seq<Match<D>>, other: seq<Match<D>>, s: Settings, cut: int, first: int, n: nat
  )
    requires AgreeBefore(rows, other, cut)
    ensures var a, b := Yielded(rows, s, first, n), Yielded(other, s, first, n);
            |a| == |b| && forall i :: 0 <= i < |a| ==> SameTraining(a[i], b[i], cut)
    decreases n
  {
    if n > 0 {
      YieldedAgree(rows, other, s, cut, first, n - 1);
      var current := Current(first, s, n - 1);
      SelectAgrees(rows, other, cut, current - s.trainDays * DAY, current);
      SelectAgrees(rows, other, cut, current, current + s.testDays * DAY);
      assert SameTraining(WindowOf(rows, s, current, n), WindowOf(other, s, current, n), cut);
    }
  }

  /**
   Changing features or results, but no date, of matches from the cut on changes neither which
   windows are yielded nor the training set of any window that starts testing at or before it.
   */
  lemma NoFutureLeakage<D>(rows: seq<Match<D>>, other: seq<Match<D>>, s: Settings, cut: int)
    requires Ends(rows, s) && AgreeBefore(rows, other, cut)
    ensures Ends(other, s)
    ensures var a, b := AllWindows(rows, s), AllWindows(other, s);
            |a| == |b| && forall i :: 0 <= i < |a| ==> SameTraining(a[i], b[i], cut)
  {
    if rows != [] {
      BoundsAgree(rows, other, cut);
    }
    if rows != [] && First(rows, s) < MaxDate(rows) {
      YieldedAgree(rows, other, s, cut, First(rows, s), Rounds(First(rows, s), MaxDate(rows), s));
    }
  }

  // ---------------------------------------------------------------------------------------
  // The generator yields a walk
  // ---------------------------------------------------------------------------------------

  lemma {:induction false} SelectSelects<D>(rows: seq<Match<D>>, from: int, until: int)
    ensures IsSelection(Select(rows, from, until), rows, DatedIn(from, until))
    decreases |rows|
  {
    var wanted := DatedIn<D>(from, until);
    if rows == [] {
      SelectionOfNone(wanted);
    } else {
      var head, rest := rows[0], rows[1..];
      SelectSelects(rest, from, until);
      SelectionOfCons(head, rest, wanted, Select(rest, from, until));
      assert rows == [head] + rest;
    }
  }

  lemma {:induction false} SelectCounts<D>(rows: seq<Match<D>>, from: int, until: int)
    ensures |Select(rows, from, until)| == Count(rows, DatedIn(from, until))
    decreases |rows|
  {
    if rows != [] {
      SelectCounts(rows[1..], from, until);
    }
  }

  lemma StartIsCurrent<D>(rows: seq<Match<D>>, s: Settings, k: nat)
    requires rows != [] && k >= 1
    ensures StartOf(MinDate(rows), s, k) == Current(First(rows, s), s, k - 1)
  {
    CurrentIsLinear(First(rows, s), s, k - 1);
  }

  lemma WindowIsWindow<D>(rows: seq<Match<D>>, s: Settings, k: nat)
    requires rows != [] && k >= 1
    ensures IsWindow(rows, s, MinDate(rows), WindowOf(rows, s, Current(First(rows, s), s, k - 1), k))
  {
    StartIsCurrent(rows, s, k);
    WindowFromStart(rows, s, MinDate(rows), Current(First(rows, s), s, k - 1), k);
  }

  lemma WindowFromStart<D>(rows: seq<Match<D>>, s: Settings, first: int, start: int, k: nat)
    requires k >= 1 && start == StartOf(first, s, k)
    ensures IsWindow(rows, s, first, WindowOf(rows, s, start, k))
  {
    SelectionsOfWindow(WindowOf(rows, s, start, k), rows);
  }

  lemma SelectionsOfWindow<D>(w: Window<D>, rows: seq<Match<D>>)
    requires w.train == Select(rows, w.trainStart, w.trainEnd) && w.test == Select(rows, w.testStart, w.testEnd)
    ensures HasSets(w, rows)
  {
    SelectSelects(rows, w.trainStart, w.trainEnd);
    SelectSelects(rows, w.testStart, w.testEnd);
  }

  lemma EnoughIsCount<D>(rows: seq<Match<D>>, s: Settings, current: int, k: nat)
    ensures Enough(WindowOf(rows, s, current, k), s) <==>
              && Count(rows, DatedIn(current - s.trainDays * DAY, current)) >= s.minTrainSamples
              && Count(rows, DatedIn(current, current + s.testDays * DAY)) > 0
  {
    SelectCounts(rows, current - s.trainDays * DAY, current);
    SelectCounts(rows, current, current + s.testDays * DAY);
  }

  /** Some match is dated after the instant exactly if it is before the last date. */
  lemma AfterIff<D>(rows: seq<Match<D>>, instant: int)
    requires rows != []
    ensures SomeAfter(rows, instant) <==> instant < MaxDate(rows)
  {
  }

  lemma AfterStartIff<D>(rows: seq<Match<D>>, s: Settings, k: nat)
    requires rows != [] && s.testDays > 0 && k >= 1
    ensures SomeAfter(rows, StartOf(MinDate(rows), s, k)) <==> k <= Rounds(First(rows, s), MaxDate(rows), s)
  {
    StartIsCurrent(rows, s, k);
    AfterIff(rows, StartOf(MinDate(rows), s, k));
    RoundsStop(First(rows, s), MaxDate(rows), s, k - 1);
  }

  lemma ReachedIff<D>(rows: seq<Match<D>>, s: Settings, k: nat)
    requires rows != [] && s.testDays > 0 && k >= 1
    ensures Reached(rows, s, MinDate(rows), k) <==> k <= Rounds(First(rows, s), MaxDate(rows), s)
  {
    AfterStartIff(rows, s, k);
    if k <= Rounds(First(rows, s), MaxDate(rows), s) {
      forall j: nat | 1 <= j <= k
        ensures SomeAfter(rows, StartOf(MinDate(rows), s, j))
      {
        AfterStartIff(rows, s, j);
      }
    }
  }

  lemma {:induction false} EnoughIsYielded<D>(
    rows: seq<Match<D>>, s: Settings, first: int, n: nat, k: nat
  ) returns (i: nat)
    requires 1 <= k <= n && Enough(WindowOf(rows, s, Current(first, s, k - 1), k), s)
    ensures i < |Yielded(rows, s, first, n)| && Yielded(rows, s, first, n)[i].id == k
    decreases n
  {
    if k == n {
      i := |Yielded(rows, s, first, n - 1)|;
    } else {
      i := EnoughIsYielded(rows, s, first, n - 1, k);
    }
  }

  lemma WantedIff<D>(rows: seq<Match<D>>, s: Settings, k: nat)
    requires rows != [] && s.testDays > 0 && k >= 1
    ensures Wanted(rows, s, MinDate(rows), k) <==>
              && k <= Rounds(First(rows, s), MaxDate(rows), s)
              && Enough(WindowOf(rows, s, Current(First(rows, s), s, k - 1), k), s)
  {
    ReachedIff(rows, s, k);
    StartIsCurrent(rows, s, k);
    EnoughIsCount(rows, s, Current(First(rows, s), s, k - 1), k);
  }

  lemma NothingWanted<D>(rows: seq<Match<D>>, s: Settings, k: nat)
    requires rows != [] && First(rows, s) >= MaxDate(rows) && k >= 1
    ensures !Wanted(rows, s, MinDate(rows), k)
  {
    StartIsCurrent(rows, s, 1);
    AfterIff(rows, StartOf(MinDate(rows), s, 1));
  }

  lemma AllWindowsAreWalk<D>(rows: seq<Match<D>>, s: Settings)
    requires rows != [] && Ends(rows, s)
    ensures IsWalk(rows, s, MinDate(rows), AllWindows(rows, s))
  {
    var first, windows := MinDate(rows), AllWindows(rows, s);
    if First(rows, s) >= MaxDate(rows) {
      forall k: nat | 1 <= k
        ensures !Wanted(rows, s, first, k)
      {
        NothingWanted(rows, s, k);
      }
    } else {
      WalkOfRounds(rows, s);
    }
  }

  lemma YieldedIsWindow<D>(rows: seq<Match<D>>, s: Settings, n: nat, i: nat)
    requires rows != [] && i < |Yielded(rows, s, First(rows, s), n)|
    ensures IsWindow(rows, s, MinDate(rows), Yielded(rows, s, First(rows, s), n)[i])
  {
    YieldedRound(rows, s, First(rows, s), n, i);
    WindowIsWindow(rows, s, Yielded(rows, s, First(rows, s), n)[i].id);
  }

  lemma YieldedIsWanted<D>(rows: seq<Match<D>>, s: Settings, n: nat, i: nat)
    requires rows != [] && s.testDays > 0 && n == Rounds(First(rows, s), MaxDate(rows), s)
    requires i < |Yielded(rows, s, First(rows, s), n)|
    ensures Wanted(rows, s, MinDate(rows), Yielded(rows, s, First(rows, s), n)[i].id)
  {
    YieldedRound(rows, s, First(rows, s), n, i);
    WantedIff(rows, s, Yielded(rows, s, First(rows, s), n)[i].id);
  }

  lemma WantedIsYielded<D>(rows: seq<Match<D>>, s: Settings, n: nat, k: nat) returns (i: nat)
    requires rows != [] && s.testDays > 0 && n == Rounds(First(rows, s), MaxDate(rows), s)
    requires k >= 1 && Wanted(rows, s, MinDate(rows), k)
    ensures i < |Yielded(rows, s, First(rows, s), n)| && Yielded(rows, s, First(rows, s), n)[i].id == k
  {
    WantedIff(rows, s, k);
    i := EnoughIsYielded(rows, s, First(rows, s), n, k);
  }

  lemma WalkOfRounds<D>(rows: seq<Match<D>>, s: Settings)
    requires rows != [] && s.testDays > 0
    ensures IsWalk(rows, s, MinDate(rows), Yielded(rows, s, First(rows, s), Rounds(First(rows, s), MaxDate(rows), s)))
  {
    var first, n := MinDate(rows), Rounds(First(rows, s), MaxDate(rows), s);
    var windows := Yielded(rows, s, First(rows, s), n);
    forall i, j | 0 <= i < j < |windows|
      ensures windows[i].id < windows[j].id
    {
      IdsAscend(rows, s, First(rows, s), n, i, j);
    }
    forall i | 0 <= i < |windows|
      ensures IsWindow(rows, s, first, windows[i]) && Wanted(rows, s, first, windows[i].id)
    {
      YieldedIsWindow(rows, s, n, i);
      YieldedIsWanted(rows, s, n, i);
    }
    forall k: nat | 1 <= k && Wanted(rows, s, first, k)
      ensures exists i :: 0 <= i < |windows| && windows[i].id == k
    {
      var i := WantedIsYielded(rows, s, n, k);
    }
  }
}
