/**
 The odds timeline: sorted in place, measured by a loop over neighbouring points, and merged
 from two captures. Odds are reals.
 */
module OddsTimeline {
  import opened Options
  import opened Reals

  datatype Odds = Odds(home: real, draw: real, away: real)
  datatype Point = Point(t: int, o: Odds)
  datatype Kind = Open | Move | Close
  datatype Entry = Entry(point: Point, kind: Kind)

  /** `volatility` is `None` for the infinity or NaN that odds of zero lead to. */
  datatype Sentiment = Sentiment(
    opening: Point, closing: Point, history: seq<Entry>,
    maxHome: real, maxDraw: real, maxAway: real, volatility: Option<real>
  )

  // ---------------------------------------------------------------------------------------
  // Sorting by time, stably
  // ---------------------------------------------------------------------------------------

  function Insert(p: Point, s: seq<Point>): seq<Point> {
    if s == [] || p.t <= s[0].t then [p] + s else [s[0]] + Insert(p, s[1..])
  }

  function SortByTime(s: seq<Point>): seq<Point> {
    if s == [] then [] else Insert(s[0], SortByTime(s[1..]))
  }

  ghost predicate Ascending(s: seq<Point>) {
    forall i, j :: 0 <= i < j < |s| ==> s[i].t <= s[j].t
  }

  /** The points with the given time, in order. */
  function At(s: seq<Point>, t: int): seq<Point> {
    if s == [] then [] else if s[0].t == t then [s[0]] + At(s[1..], t) else At(s[1..], t)
  }

  lemma {:induction false} InsertPermutes(p: Point, s: seq<Point>)
    ensures multiset(Insert(p, s)) == multiset(s) + multiset{p}
  {
    if !(s == [] || p.t <= s[0].t) {
      InsertPermutes(p, s[1..]);
      assert s == [s[0]] + s[1..];
    }
  }

  lemma {:induction false} InsertSorts(p: Point, s: seq<Point>)
    requires Ascending(s)
    ensures Ascending(Insert(p, s))
  {
    if !(s == [] || p.t <= s[0].t) {
      InsertSorts(p, s[1..]);
      InsertPermutes(p, s[1..]);
      var r := Insert(p, s[1..]);
      forall j | 0 <= j < |r|
        ensures s[0].t <= r[j].t
      {
        assert r[j] in multiset(r);
        assert r[j] == p || r[j] in s[1..];
      }
    }
  }

  lemma {:induction false} InsertStable(p: Point, s: seq<Point>, t: int)
    requires Ascending(s)
    ensures At(Insert(p, s), t) == if p.t == t then [p] + At(s, t) else At(s, t)
  {
    if s == [] || p.t <= s[0].t {
      assert ([p] + s)[1..] == s;
    } else {
      InsertStable(p, s[1..], t);
      assert ([s[0]] + Insert(p, s[1..]))[1..] == Insert(p, s[1..]);
      if p.t == t {
        assert s[0].t != t;
      }
    }
  }

  /** The sort gives an ascending permutation. */
  lemma {:induction false} SortSorts(s: seq<Point>)
    ensures Ascending(SortByTime(s)) && multiset(SortByTime(s)) == multiset(s)
  {
    if s != [] {
      SortSorts(s[1..]);
      InsertSorts(s[0], SortByTime(s[1..]));
      InsertPermutes(s[0], SortByTime(s[1..]));
      assert s == [s[0]] + s[1..];
    }
  }

  /** Points of the same time keep their order. */
  lemma {:induction false} SortStable(s: seq<Point>, t: int)
    ensures At(SortByTime(s), t) == At(s, t)
  {
    if s != [] {
      SortStable(s[1..], t);
      SortSorts(s[1..]);
      InsertStable(s[0], SortByTime(s[1..]), t);
    }
  }

  // ---------------------------------------------------------------------------------------
  // Movement
  // ---------------------------------------------------------------------------------------

  datatype Side = HomeWin | Draw | AwayWin

  function OddsOf(o: Odds, side: Side): real {
    match side
    case HomeWin => o.home
    case Draw => o.draw
    case AwayWin => o.away
  }

  /** The change of one side's odds from point `i - 1` to point `i`. */
  function Change(s: seq<Point>, side: Side, i: nat): real
    requires 0 < i < |s|
  {
    Abs(OddsOf(s[i].o, side) - OddsOf(s[i - 1].o, side))
  }

  /** Among the first `n` points, `m` bounds the change between neighbours, and is attained unless it is zero. */
  ghost predicate LargestUpTo(s: seq<Point>, side: Side, n: nat, m: real)
    requires n <= |s|
  {
    && m >= 0.0
    && (forall i :: 0 < i < n ==> Change(s, side, i) <= m)
    && (m > 0.0 ==> exists i :: 0 < i < n && Change(s, side, i) == m)
  }

  ghost predicate LargestChange(s: seq<Point>, side: Side, m: real) {
    LargestUpTo(s, side, |s|, m)
  }

  lemma LargestChangeStep(s: seq<Point>, side: Side, n: nat, m: real)
    requires 0 < n < |s| && LargestUpTo(s, side, n, m)
    ensures LargestUpTo(s, side, n + 1, Max(m, Change(s, side, n)))
  {
    if m > 0.0 {
      var i :| 0 < i < n && Change(s, side, i) == m;
    }
  }

  /** `n` steps of `m` each. */
  function Times(n: nat, m: real): real {
    if n == 0 then 0.0 else Times(n - 1, m) + m
  }

  lemma OneMore(x: real, m: real)
    ensures (x + 1.0) * m == x * m + m
  {
  }

  lemma {:induction false} TimesIsProduct(n: nat, m: real)
    ensures Times(n, m) == n as real * m
  {
    if n > 0 {
      TimesIsProduct(n - 1, m);
      OneMore((n - 1) as real, m);
      assert n as real == (n - 1) as real + 1.0;
    }
  }

  lemma {:induction false} DriftBounded(s: seq<Point>, side: Side, m: real, n: nat)
    requires LargestChange(s, side, m) && n < |s|
    ensures Abs(OddsOf(s[n].o, side) - OddsOf(s[0].o, side)) <= Times(n, m)
    decreases n
  {
    if n > 0 {
      DriftBounded(s, side, m, n - 1);
      assert Change(s, side, n) <= m;
    }
  }

  /** Opening and closing are no further apart than the largest change, once per step, allows. */
  lemma ClosingNearOpening(s: seq<Point>, side: Side, largest: real)
    requires s != [] && LargestChange(s, side, largest)
    ensures Abs(OddsOf(s[|s| - 1].o, side) - OddsOf(s[0].o, side)) <= (|s| - 1) as real * largest
  {
    DriftBounded(s, side, largest, |s| - 1);
    TimesIsProduct(|s| - 1, largest);
  }

  // ---------------------------------------------------------------------------------------
  // Volatility
  // ---------------------------------------------------------------------------------------

  predicate NonZero(o: Odds) {
    o.home != 0.0 && o.draw != 0.0 && o.away != 0.0
  }

  /** The first `n` points have odds to divide by. */
  predicate Divisible(s: seq<Point>, n: nat)
    requires n <= |s|
  {
    forall i :: 0 <= i < n ==> NonZero(s[i].o)
  }

  /** The mean of the three relative changes from `p` to `q`. */
  function RelativeChange(p: Odds, q: Odds): real
    requires NonZero(p)
  {
    (Abs(q.home - p.home) / p.home + Abs(q.draw - p.draw) / p.draw + Abs(q.away - p.away) / p.away) / 3.0
  }

  /** The sum of the first `n` relative changes. */
  function RelativeSum(s: seq<Point>, n: nat): real
    requires n < |s| && Divisible(s, n)
  {
    if n == 0 then 0.0 else RelativeSum(s, n - 1) + RelativeChange(s[n - 1].o, s[n].o)
  }

  /** The sum that the loop keeps over the first `n` changes. */
  function SumUpTo(s: seq<Point>, n: nat): Option<real>
    requires n < |s|
  {
    if Divisible(s, n) then Some(RelativeSum(s, n)) else None
  }

  /** A hundred times the mean change of `n` points that add up to the sum; zero for a single point. */
  function Mean(sum: Option<real>, n: nat): Option<real>
    requires n > 0
  {
    if n == 1 then Some(0.0) else if sum.Some? then Some(sum.value / (n - 1) as real * 100.0) else None
  }

  function VolatilityOf(s: seq<Point>): Option<real>
    requires s != []
  {
    Mean(SumUpTo(s, |s| - 1), |s|)
  }

  predicate PositiveOdds(s: seq<Point>) {
    forall i :: 0 <= i < |s| ==> s[i].o.home > 0.0 && s[i].o.draw > 0.0 && s[i].o.away > 0.0
  }

  lemma QuotientOfAbs(x: real, y: real)
    requires y > 0.0
    ensures Abs(x) / y >= 0.0 && (Abs(x) / y == 0.0 <==> x == 0.0)
  {
    if x != 0.0 {
      QuotientPositive(Abs(x), y);
    }
  }

  lemma RelativeChangeSign(p: Odds, q: Odds)
    requires p.home > 0.0 && p.draw > 0.0 && p.away > 0.0
    ensures RelativeChange(p, q) >= 0.0 && (RelativeChange(p, q) == 0.0 <==> p == q)
  {
    QuotientOfAbs(q.home - p.home, p.home);
    QuotientOfAbs(q.draw - p.draw, p.draw);
    QuotientOfAbs(q.away - p.away, p.away);
  }

  /** The first `n + 1` points have the same odds. */
  predicate Still(s: seq<Point>, n: nat)
    requires n < |s|
  {
    forall i :: 0 <= i <= n ==> s[i].o == s[0].o
  }

  lemma {:induction false} RelativeSumSign(s: seq<Point>, n: nat)
    requires n < |s| && PositiveOdds(s)
    ensures Divisible(s, n) && RelativeSum(s, n) >= 0.0 && (RelativeSum(s, n) == 0.0 <==> Still(s, n))
    decreases n
  {
    if n > 0 {
      RelativeSumSign(s, n - 1);
      RelativeChangeSign(s[n - 1].o, s[n].o);
    }
  }

  /** With positive odds the volatility is a number, not negative, and zero exactly if the odds never change. */
  lemma VolatilityZeroIff(s: seq<Point>)
    requires s != [] && PositiveOdds(s)
    ensures var v := VolatilityOf(s); v.Some? && v.value >= 0.0 && (v.value == 0.0 <==> Still(s, |s| - 1))
  {
    RelativeSumSign(s, |s| - 1);
    if |s| > 1 {
      var steps := (|s| - 1) as real;
      QuotientOfAbs(RelativeSum(s, |s| - 1), steps);
    }
  }

  /** The share of the odds `from` that lies between them and the odds `to`, on every side. */
  predicate Shares(from: Odds, to: Odds, home: real, draw: real, away: real) {
    && Abs(to.home - from.home) == home * from.home
    && Abs(to.draw - from.draw) == draw * from.draw
    && Abs(to.away - from.away) == away * from.away
  }

  lemma ShareIs(x: real, share: real, y: real)
    requires y != 0.0 && x == share * y
    ensures x / y == share
  {
  }

  /** Of two points, the volatility is the mean percentage by which the three odds change. */
  lemma TwoPointVolatility(p: Point, q: Point, home: real, draw: real, away: real)
    requires NonZero(p.o) && Shares(p.o, q.o, home, draw, away)
    ensures VolatilityOf([p, q]) == Some(100.0 * (home + draw + away) / 3.0)
  {
    VolatilityOfStep(p, q);
    ShareIs(Abs(q.o.home - p.o.home), home, p.o.home);
    ShareIs(Abs(q.o.draw - p.o.draw), draw, p.o.draw);
    ShareIs(Abs(q.o.away - p.o.away), away, p.o.away);
  }

  lemma VolatilityOfStep(p: Point, q: Point)
    requires NonZero(p.o)
    ensures VolatilityOf([p, q]) == Some(100.0 * RelativeChange(p.o, q.o))
  {
    assert RelativeSum([p, q], 0) == 0.0;
    assert RelativeSum([p, q], 1) == RelativeChange(p.o, q.o);
  }

  /** There is a volatility exactly if no point but the last has odds of zero. */
  lemma VolatilityExistsIff(s: seq<Point>)
    requires s != []
    ensures VolatilityOf(s).Some? <==> forall i :: 0 <= i < |s| - 1 ==> NonZero(s[i].o)
  {
  }

  lemma {:induction false} RelativeSumOfMore(s: seq<Point>, next: Point, n: nat)
    requires n < |s| && Divisible(s, n)
    ensures Divisible(s + [next], n) && RelativeSum(s + [next], n) == RelativeSum(s, n)
    decreases n
  {
    if n > 0 {
      RelativeSumOfMore(s, next, n - 1);
    }
  }

  lemma RelativeSumLast(s: seq<Point>, next: Point)
    requires s != [] && Divisible(s, |s|)
    ensures Divisible(s + [next], |s|)
    ensures RelativeSum(s + [next], |s|) == RelativeSum(s, |s| - 1) + RelativeChange(s[|s| - 1].o, next.o)
  {
    RelativeSumOfMore(s, next, |s| - 1);
  }

  lemma TimesMean(sum: real, n: nat)
    requires n > 0
    ensures sum / n as real * 100.0 * n as real == 100.0 * sum
  {
    var q := sum / n as real;
    assert q * n as real == sum;
    assert q * 100.0 * n as real == 100.0 * (q * n as real);
  }

  lemma VolatilityTimes(s: seq<Point>)
    requires s != [] && Divisible(s, |s| - 1)
    ensures var v := VolatilityOf(s);
            v.Some? && v.value * (|s| - 1) as real == 100.0 * RelativeSum(s, |s| - 1)
  {
    if |s| > 1 {
      TimesMean(RelativeSum(s, |s| - 1), |s| - 1);
    }
  }

  /** Of more points it is the mean over the neighbours: each further point adds the volatility of one step. */
  lemma VolatilityAverages(s: seq<Point>, next: Point)
    requires s != [] && Divisible(s, |s|)
    ensures var v, w, u := VolatilityOf(s), VolatilityOf([s[|s| - 1], next]), VolatilityOf(s + [next]);
            && v.Some? && w.Some? && u.Some?
            && u.value * |s| as real == v.value * (|s| - 1) as real + w.value
  {
    var last := s[|s| - 1];
    VolatilityTimes(s);
    VolatilityOfMore(s, next);
    VolatilityOfStep(last, next);
  }

  lemma VolatilityOfMore(s: seq<Point>, next: Point)
    requires s != [] && Divisible(s, |s|)
    ensures var u := VolatilityOf(s + [next]);
            && u.Some?
            && u.value * |s| as real
               == 100.0 * RelativeSum(s, |s| - 1) + 100.0 * RelativeChange(s[|s| - 1].o, next.o)
  {
    VolatilityTimes(s + [next]);
    RelativeSumLast(s, next);
  }

  // ---------------------------------------------------------------------------------------
  // The sentiment
  // ---------------------------------------------------------------------------------------

  function KindAt(i: int, n: int): Kind {
    if i == 0 then Open else if i == n - 1 then Close else Move
  }

  /** The entries are the points in order, each of the right kind. */
  predicate IsHistory(history: seq<Entry>, s: seq<Point>) {
    && |history| == |s|
    && forall i :: 0 <= i < |s| ==> history[i].point == s[i] && history[i].kind == KindAt(i, |s|)
  }

  function Marked(s: seq<Point>): (history: seq<Entry>)
    ensures IsHistory(history, s)
  {
    seq(|s|, i requires 0 <= i < |s| => Entry(s[i], KindAt(i, |s|)))
  }

  /** Exactly the first entry is the opening; exactly the last, if it is not the first, is the closing. */
  lemma OneOpenOneClose(history: seq<Entry>, s: seq<Point>, i: nat)
    requires IsHistory(history, s) && i < |s|
    ensures history[i].kind == Open <==> i == 0
    ensures history[i].kind == Close <==> 0 < i == |s| - 1
  {
  }

  /** `parseFloat(x.toFixed(4))`, which leaves numbers from 10 ** 21 on as they are. */
  function Rounded(x: real): real {
    if Abs(x) >= 1000000000000000000000.0 then x
    else if x < 0.0 then -RoundedUp(-x)
    else RoundedUp(x)
  }

  /** The nearest number with four digits behind the point, the larger one of two. */
  function RoundedUp(x: real): real {
    (x * 10000.0 + 0.5).Floor as real / 10000.0
  }

  /** It has four digits, and of two numbers as near it is the one further from zero. */
  lemma RoundedDigits(x: real) returns (n: int)
    ensures Abs(x) < 1000000000000000000000.0 ==> Rounded(x) == n as real / 10000.0
    ensures if x >= 0.0 then Rounded(x) > x - 0.00005 else Rounded(x) < x + 0.00005
  {
    var m := (Abs(x) * 10000.0 + 0.5).Floor;
    n := if x < 0.0 then -m else m;
    UpDigits(Abs(x), m);
    assert n as real == if x < 0.0 then -(m as real) else m as real;
  }

  lemma UpDigits(x: real, m: int)
    requires m == (x * 10000.0 + 0.5).Floor
    ensures RoundedUp(x) == m as real / 10000.0 && RoundedUp(x) > x - 0.00005
  {
  }

  /** No number with four digits is nearer. */
  lemma RoundedIsNearest(x: real, k: int)
    ensures Abs(Rounded(x) - x) <= 0.00005
    ensures Abs(Rounded(x) - x) <= Abs(k as real / 10000.0 - x)
  {
    NearestUp(Abs(x), k);
    NearestUp(Abs(x), -k);
  }

  lemma NearestUp(x: real, k: int)
    ensures Abs(RoundedUp(x) - x) <= 0.00005
    ensures Abs(RoundedUp(x) - x) <= Abs(k as real / 10000.0 - x)
  {
    var n := (x * 10000.0 + 0.5).Floor;
    assert n as real <= x * 10000.0 + 0.5 < n as real + 1.0;
    if k < n {
      assert k as real <= n as real - 1.0;
    } else if k > n {
      assert k as real >= n as real + 1.0;
    }
  }

  function RoundedOption(x: Option<real>): Option<real> {
    if x.Some? then Some(Rounded(x.value)) else None
  }

  ghost predicate IsRoundedChange(s: seq<Point>, side: Side, r: real) {
    exists m :: LargestChange(s, side, m) && r == Rounded(m)
  }

  /** What the sentiment says about the sorted points. */
  ghost predicate IsSentiment(r: Sentiment, s: seq<Point>)
    requires s != []
  {
    && r.opening == s[0] && r.closing == s[|s| - 1] && IsHistory(r.history, s)
    && IsRoundedChange(s, HomeWin, r.maxHome) && IsRoundedChange(s, Draw, r.maxDraw)
    && IsRoundedChange(s, AwayWin, r.maxAway)
    && r.volatility == RoundedOption(VolatilityOf(s))
  }

  /** By field name: each largest change bounds the steps of its own odds, up to the rounding. */
  lemma LargestChangesBound(r: Sentiment, s: seq<Point>, i: nat)
    requires 0 < i < |s| && IsSentiment(r, s)
    ensures Abs(s[i].o.home - s[i - 1].o.home) <= r.maxHome + 0.00005
    ensures Abs(s[i].o.draw - s[i - 1].o.draw) <= r.maxDraw + 0.00005
    ensures Abs(s[i].o.away - s[i - 1].o.away) <= r.maxAway + 0.00005
  {
    RoundedBounds(s, HomeWin, r.maxHome, i);
    RoundedBounds(s, Draw, r.maxDraw, i);
    RoundedBounds(s, AwayWin, r.maxAway, i);
  }

  lemma RoundedBounds(s: seq<Point>, side: Side, r: real, i: nat)
    requires 0 < i < |s| && IsRoundedChange(s, side, r)
    ensures Change(s, side, i) <= r + 0.00005
  {
    var m :| LargestChange(s, side, m) && r == Rounded(m);
    RoundedIsNearest(m, 0);
  }

  lemma SortLength(s: seq<Point>)
    ensures |SortByTime(s)| == |s|
  {
    SortSorts(s);
    assert |multiset(s)| == |s| && |multiset(SortByTime(s))| == |SortByTime(s)|;
  }

  /** `timeline.sort((a, b) => a.t - b.t)` */
  method SortInPlace(timeline: array<Point>)
    modifies timeline
    ensures timeline[..] == SortByTime(old(timeline[..]))
  {
    var sorted := SortByTime(timeline[..]);
    SortLength(timeline[..]);
    forall i | 0 <= i < timeline.Length {
      timeline[i] := sorted[i];
    }
  }

  lemma SumStep(s: seq<Point>, n: nat)
    requires 0 < n < |s|
    ensures var sum, prev := SumUpTo(s, n - 1), s[n - 1].o;
            SumUpTo(s, n) == if sum.Some? && NonZero(prev) then Some(sum.value + RelativeChange(prev, s[n].o)) else None
  {
  }

  /** The loop over neighbouring points: the largest changes, and the sum of the relative ones. */
  method Measure(s: seq<Point>) returns (maxHome: real, maxDraw: real, maxAway: real, sum: Option<real>)
    requires s != []
    ensures LargestChange(s, HomeWin, maxHome) && LargestChange(s, Draw, maxDraw) && LargestChange(s, AwayWin, maxAway)
    ensures sum == SumUpTo(s, |s| - 1)
  {
    maxHome, maxDraw, maxAway, sum := 0.0, 0.0, 0.0, Some(0.0);
    for i := 1 to |s|
      invariant LargestUpTo(s, HomeWin, i, maxHome)
      invariant LargestUpTo(s, Draw, i, maxDraw)
      invariant LargestUpTo(s, AwayWin, i, maxAway)
      invariant sum == SumUpTo(s, i - 1)
    {
      LargestChangeStep(s, HomeWin, i, maxHome);
      LargestChangeStep(s, Draw, i, maxDraw);
      LargestChangeStep(s, AwayWin, i, maxAway);
      SumStep(s, i);
      var prev, curr := s[i - 1].o, s[i].o;
      maxHome := Max(maxHome, Abs(curr.home - prev.home));
      maxDraw := Max(maxDraw, Abs(curr.draw - prev.draw));
      maxAway := Max(maxAway, Abs(curr.away - prev.away));
      sum := if sum.Some? && NonZero(prev) then Some(sum.value + RelativeChange(prev, curr)) else None;
    }
  }

  method BuildSentiment(timeline: array<Point>) returns (result: Option<Sentiment>)
    modifies timeline
    ensures timeline[..] == SortByTime(old(timeline[..]))
    ensures result.None? <==> timeline.Length == 0
    ensures result.Some? ==> IsSentiment(result.value, timeline[..])
  {
    SortInPlace(timeline);
    if timeline.Length == 0 {
      return None;
    }
    var s := timeline[..];
    var maxHome, maxDraw, maxAway, sum := Measure(s);
    return Some(Sentiment(s[0], s[|s| - 1], Marked(s), Rounded(maxHome), Rounded(maxDraw), Rounded(maxAway),
                          RoundedOption(Mean(sum, |s|))));
  }

  // ---------------------------------------------------------------------------------------
  // Acceptance
  // ---------------------------------------------------------------------------------------

  const MIN_HISTORY_POINTS := 3

  /** What ends the wait for a capture early. */
  predicate StreamComplete(points: int) {
    points >= MIN_HISTORY_POINTS
  }

  /** The validation: both ends have a time (zero counts as missing) and there are more points than the minimum. */
  predicate ValidSentiment(s: Option<Sentiment>) {
    && s.Some?
    && s.value.opening.t != 0 && s.value.closing.t != 0
    && |s.value.history| > 1 && |s.value.history| > MIN_HISTORY_POINTS
  }

  /** What is built from a capture. */
  ghost predicate BuiltFrom(points: seq<Point>, s: Option<Sentiment>) {
    && (s.None? <==> points == [])
    && (s.Some? ==> SortByTime(points) != [] && IsSentiment(s.value, SortByTime(points)))
  }

  /** A time of zero is the earliest or the latest of all. */
  predicate ZeroEnd(points: seq<Point>) {
    && (exists i :: 0 <= i < |points| && points[i].t == 0)
    && ((forall i :: 0 <= i < |points| ==> points[i].t >= 0) || (forall i :: 0 <= i < |points| ==> points[i].t <= 0))
  }

  /** The ends of the sorted points are points of the earliest and of the latest time. */
  lemma SortedEnds(points: seq<Point>)
    requires points != []
    ensures var s := SortByTime(points);
            && |s| == |points| && s[0] in points && s[|s| - 1] in points
            && forall i :: 0 <= i < |points| ==> s[0].t <= points[i].t <= s[|s| - 1].t
  {
    var s := SortByTime(points);
    SortSorts(points);
    SortLength(points);
    assert s[0] in multiset(s) && s[|s| - 1] in multiset(s);
    forall i | 0 <= i < |points|
      ensures s[0].t <= points[i].t <= s[|s| - 1].t
    {
      assert points[i] in multiset(points);
      var j :| 0 <= j < |s| && s[j] == points[i];
    }
  }

  /**
   A capture is accepted exactly if it has more than three points and no time of zero at either
   end; so of those that end the wait exactly the ones with three points, or such an end, are not.
   */
  lemma AcceptedIff(points: seq<Point>, s: Option<Sentiment>)
    requires BuiltFrom(points, s)
    ensures ValidSentiment(s) <==> |points| > 3 && !ZeroEnd(points)
    ensures StreamComplete(|points|) && !ValidSentiment(s) <==> |points| == 3 || (|points| > 3 && ZeroEnd(points))
  {
    if points != [] {
      SortedEnds(points);
    }
  }

  // ---------------------------------------------------------------------------------------
  // Merging two captures
  // ---------------------------------------------------------------------------------------

  /** The points whose time does not occur among `seen` or earlier in the sequence. */
  function FirstOnly(s: seq<Point>, seen: set<int>): seq<Point> {
    if s == [] then []
    else if s[0].t in seen then FirstOnly(s[1..], seen)
    else [s[0]] + FirstOnly(s[1..], seen + {s[0].t})
  }

  function Merge(a: seq<Point>, b: seq<Point>): seq<Point> {
    SortByTime(FirstOnly(a + b, {}))
  }

  /** Exactly the first point of each unseen time is kept. */
  lemma {:induction false} FirstOnlyAt(s: seq<Point>, seen: set<int>, t: int)
    ensures At(FirstOnly(s, seen), t) == if t in seen || At(s, t) == [] then [] else [At(s, t)[0]]
    decreases |s|
  {
    if s != [] {
      FirstOnlyAt(s[1..], if s[0].t in seen then seen else seen + {s[0].t}, t);
      if s[0].t !in seen {
        assert FirstOnly(s, seen)[1..] == FirstOnly(s[1..], seen + {s[0].t});
      }
    }
  }

  lemma {:induction false} AtHoldsAll(s: seq<Point>, i: nat)
    requires i < |s|
    ensures s[i] in At(s, s[i].t)
  {
    if i > 0 {
      AtHoldsAll(s[1..], i - 1);
    }
  }

  lemma {:induction false} TwiceAt(s: seq<Point>, i: nat, j: nat)
    requires i < j < |s| && s[i].t == s[j].t
    ensures |At(s, s[i].t)| >= 2
  {
    if i > 0 {
      TwiceAt(s[1..], i - 1, j - 1);
    } else {
      AtHoldsAll(s[1..], j - 1);
    }
  }

  /** The merged timeline ascends strictly, and has for every time of either capture its first point, and no other. */
  lemma MergeIsStrict(a: seq<Point>, b: seq<Point>)
    ensures var m := Merge(a, b); forall i, j :: 0 <= i < j < |m| ==> m[i].t < m[j].t
    ensures forall t :: At(Merge(a, b), t) == if At(a + b, t) == [] then [] else [At(a + b, t)[0]]
  {
    var m := Merge(a, b);
    SortSorts(FirstOnly(a + b, {}));
    forall t
      ensures At(m, t) == if At(a + b, t) == [] then [] else [At(a + b, t)[0]]
    {
      SortStable(FirstOnly(a + b, {}), t);
      FirstOnlyAt(a + b, {}, t);
    }
    forall i, j | 0 <= i < j < |m|
      ensures m[i].t < m[j].t
    {
      if m[i].t == m[j].t {
        TwiceAt(m, i, j);
      }
    }
  }

  // ---------------------------------------------------------------------------------------
  // Retrying
  // ---------------------------------------------------------------------------------------

  const RETRIES := 3

  /** The capture is accepted. */
  predicate Acceptable(points: seq<Point>) {
    |points| > 3 && !ZeroEnd(points)
  }

  /** One attempt: the sentiment of a capture, if it is accepted. */
  method Attempt(points: seq<Point>) returns (accepted: Option<Sentiment>)
    ensures accepted.Some? <==> Acceptable(points)
    ensures accepted.Some? ==> BuiltFrom(points, accepted)
  {
    var timeline := new Point[|points|](i requires 0 <= i < |points| => points[i]);
    assert timeline[..] == points;
    SortLength(points);
    accepted := BuildSentiment(timeline);
    AcceptedIff(points, accepted);
    if !ValidSentiment(accepted) {
      accepted := None;
    }
  }

  /** Attempt `k` is the first of those from `from` on whose capture is accepted. */
  ghost predicate FirstAccepted(captures: nat -> seq<Point>, from: nat, k: nat) {
    from <= k <= RETRIES && Acceptable(captures(k)) && forall l :: from <= l < k ==> !Acceptable(captures(l))
  }

  ghost predicate NoneAccepted(captures: nat -> seq<Point>, from: nat) {
    forall k :: from <= k <= RETRIES ==> !Acceptable(captures(k))
  }

  /** What attempts `from` and later come to: the first accepted capture, or nothing after the last retry. */
  ghost predicate IsHarvest(captures: nat -> seq<Point>, from: nat, saved: Option<Sentiment>, last: nat) {
    if saved.Some? then FirstAccepted(captures, from, last) && BuiltFrom(captures(last), saved)
    else NoneAccepted(captures, from) && last == RETRIES
  }

  /** A refused attempt leaves the matter to the ones after it. */
  lemma RefusedFirst(captures: nat -> seq<Point>, from: nat, saved: Option<Sentiment>, last: nat)
    requires from < RETRIES && !Acceptable(captures(from)) && IsHarvest(captures, from + 1, saved, last)
    ensures IsHarvest(captures, from, saved, last)
  {
  }

  lemma EndOfHarvest(captures: nat -> seq<Point>, from: nat, accepted: Option<Sentiment>)
    requires from <= RETRIES && (accepted.Some? || from == RETRIES)
    requires accepted.Some? <==> Acceptable(captures(from))
    requires accepted.Some? ==> BuiltFrom(captures(from), accepted)
    ensures IsHarvest(captures, from, accepted, from)
  {
  }

  /** What is counted for the log at each retry: the merged timeline. */
  ghost predicate IsLog(logged: seq<nat>, captures: nat -> seq<Point>, extra: nat -> seq<Point>, from: nat) {
    forall i :: 0 <= i < |logged| ==> logged[i] == |Merge(captures(from + i), extra(from + i))|
  }

  lemma LogOneMore(captures: nat -> seq<Point>, extra: nat -> seq<Point>, from: nat, later: seq<nat>)
    requires IsLog(later, captures, extra, from + 1)
    ensures IsLog([|Merge(captures(from), extra(from))|] + later, captures, extra, from)
  {
  }

  /**
   A harvest and its retries: `captures(k)` is what attempt `k` captures, `extra(k)` what it
   captures after healing. The merged timeline is counted for the log and then forgotten: what
   is saved is the first capture that is accepted by itself.
   */
  method Harvest(captures: nat -> seq<Point>, extra: nat -> seq<Point>, retryCount: nat)
    returns (saved: Option<Sentiment>, logged: seq<nat>, ghost last: nat)
    requires retryCount <= RETRIES
    ensures IsHarvest(captures, retryCount, saved, last)
    ensures |logged| == last - retryCount && IsLog(logged, captures, extra, retryCount)
    decreases RETRIES - retryCount
  {
    saved := Attempt(captures(retryCount));
    logged, last := [], retryCount;
    if saved.Some? || retryCount == RETRIES {
      EndOfHarvest(captures, retryCount, saved);
      return;
    }
    var merged := Merge(captures(retryCount), extra(retryCount));
    var later: seq<nat>;
    saved, later, last := Harvest(captures, extra, retryCount + 1);
    RefusedFirst(captures, retryCount, saved, last);
    LogOneMore(captures, extra, retryCount, later);
    logged := [|merged|] + later;
  }

  lemma {:induction false} FirstOnlyOfDistinct(s: seq<Point>, seen: set<int>)
    requires forall i, j :: 0 <= i < j < |s| ==> s[i].t != s[j].t
    requires forall i :: 0 <= i < |s| ==> s[i].t !in seen
    ensures FirstOnly(s, seen) == s
    decreases |s|
  {
    if s != [] {
      FirstOnlyOfDistinct(s[1..], seen + {s[0].t});
    }
  }

  lemma MergeAcceptable(a: seq<Point>, b: seq<Point>)
    requires |a + b| > 3 && forall i, j :: 0 <= i < j < |a + b| ==> (a + b)[i].t != (a + b)[j].t
    requires forall i :: 0 <= i < |a + b| ==> (a + b)[i].t > 0
    ensures Acceptable(Merge(a, b))
  {
    var all, m := a + b, Merge(a, b);
    FirstOnlyOfDistinct(all, {});
    SortLength(all);
    SortSorts(all);
    forall i | 0 <= i < |m|
      ensures m[i].t > 0
    {
      assert m[i] in multiset(m);
      assert m[i] in all;
    }
  }

  /** Two captures that are refused one by one, and whose merged timeline would be accepted. */
  lemma MergedWouldDo(o: Odds)
    ensures var a, b := [Point(1, o), Point(2, o), Point(3, o)], [Point(4, o)];
            !Acceptable(a) && !Acceptable(b) && Acceptable(Merge(a, b))
  {
    MergeAcceptable([Point(1, o), Point(2, o), Point(3, o)], [Point(4, o)]);
  }
}
