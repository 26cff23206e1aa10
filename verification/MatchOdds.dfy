/**
 The weekend predictor's probability pipeline over the reals: sets of probabilities that are
 renormalised only when they are off by more than a hundredth, adjustments that clamp, and
 expected values. The power of ten in the Elo formula is a parameter, any positive number.
 */
module MatchOdds {
  import opened Options
  import opened Reals

  datatype Probabilities = Probabilities(home: real, draw: real, away: real) {
    function Sum(): real {
      home + draw + away
    }
  }

  /** The set that `ProbabilitySet(...)` holds once it has normalised itself. */
  function Settled(p: Probabilities): Probabilities
    requires p.Sum() != 0.0
  {
    if Abs(p.Sum() - 1.0) > 0.01
    then Probabilities(p.home / p.Sum(), p.draw / p.Sum(), p.away / p.Sum())
    else p
  }

  /** Positive, with a sum within a hundredth of one. */
  predicate Sound(p: Probabilities) {
    Positive(p) && Abs(p.Sum() - 1.0) <= 0.01
  }

  predicate Positive(p: Probabilities) {
    p.home > 0.0 && p.draw > 0.0 && p.away > 0.0
  }

  /** The ratio of home to away is in `q` at least what it is in `p`; compared crosswise, without division. */
  predicate RatioAtMost(p: Probabilities, q: Probabilities) {
    p.home * q.away <= q.home * p.away
  }

  class ProbabilitySet {
    var home: real
    var draw: real
    var away: real

    function Value(): Probabilities
      reads this
    {
      Probabilities(home, draw, away)
    }

    /** The dataclass constructor with its `__post_init__`, which divides the fields one after the other. */
    constructor (home: real, draw: real, away: real)
      requires home + draw + away != 0.0
      ensures Value() == Settled(Probabilities(home, draw, away))
    {
      this.home, this.draw, this.away := home, draw, away;
      new;
      var total := this.home + this.draw + this.away;
      if Abs(total - 1.0) > 0.01 {
        this.home := this.home / total;
        this.draw := this.draw / total;
        this.away := this.away / total;
      }
    }
  }

  lemma QuotientsSum(p: Probabilities)
    requires p.Sum() != 0.0
    ensures p.home / p.Sum() + p.draw / p.Sum() + p.away / p.Sum() == 1.0
  {
    SumOfQuotients(p.home, p.draw, p.away, p.Sum());
  }

  /** Positive numbers settle to a sound set, with a sum of exactly one if they were off. */
  lemma SettledIsSound(p: Probabilities)
    requires Positive(p)
    ensures Sound(Settled(p))
    ensures !Sound(p) ==> Settled(p).Sum() == 1.0
  {
    QuotientPositive(p.home, p.Sum());
    QuotientPositive(p.draw, p.Sum());
    QuotientPositive(p.away, p.Sum());
    QuotientsSum(p);
  }

  // ---------------------------------------------------------------------------------------
  // Where the probabilities come from
  // ---------------------------------------------------------------------------------------

  /** `power` stands for 10 ** ((away - home - 50) / 400). */
  function EloProbabilities(homeElo: real, awayElo: real, power: real): (p: Probabilities)
    requires power > 0.0
  {
    var homeExpected := 1.0 / (1.0 + power);
    var drawProb := 0.28 - Min(0.08, Abs(homeElo - awayElo) / 2000.0);
    var remaining := 1.0 - drawProb;
    Probabilities(remaining * homeExpected, drawProb, remaining * (1.0 - homeExpected))
  }

  lemma EloIsSound(homeElo: real, awayElo: real, power: real)
    requires power > 0.0
    ensures var p := EloProbabilities(homeElo, awayElo, power);
            Sound(p) && p.Sum() == 1.0 && Settled(p) == p && 0.2 <= p.draw <= 0.28
  {
    var e := 1.0 / (1.0 + power);
    var p := EloProbabilities(homeElo, awayElo, power);
    var remaining := 1.0 - p.draw;
    assert e * (1.0 + power) == 1.0;
    assert 0.0 < e < 1.0;
    assert remaining * e > 0.0 && remaining * (1.0 - e) > 0.0;
    assert remaining * e + remaining * (1.0 - e) == remaining;
  }

  /**
   The set that belongs to two ratings, by equations: it sums to one, away is to home as the power
   to one, and the draw falls from 0.28 by 0.0005 a point of the gap, down to 0.2 at 160 points.
   */
  predicate IsRatedSet(p: Probabilities, homeElo: real, awayElo: real, power: real) {
    && p.home + p.draw + p.away == 1.0
    && p.away == power * p.home
    && (-160.0 <= homeElo - awayElo <= 0.0 ==> p.draw == 0.28 - 0.0005 * (awayElo - homeElo))
    && (0.0 <= homeElo - awayElo <= 160.0 ==> p.draw == 0.28 - 0.0005 * (homeElo - awayElo))
    && (homeElo - awayElo <= -160.0 || homeElo - awayElo >= 160.0 ==> p.draw == 0.2)
  }

  /** The formula solves the equations, and nothing else does. */
  lemma RatedSetIff(homeElo: real, awayElo: real, power: real, p: Probabilities)
    requires power > 0.0
    ensures p == EloProbabilities(homeElo, awayElo, power) <==> IsRatedSet(p, homeElo, awayElo, power)
  {
    var e := 1.0 / (1.0 + power);
    var q := EloProbabilities(homeElo, awayElo, power);
    Unscaled(1.0 - q.draw, power);
    if IsRatedSet(p, homeElo, awayElo, power) {
      assert p.draw == q.draw;
      OneSolution(p.home, q.home, power);
    }
  }

  lemma Unscaled(remaining: real, power: real)
    requires power > 0.0
    ensures var e := 1.0 / (1.0 + power); remaining * (1.0 - e) == power * (remaining * e)
  {
    var e := 1.0 / (1.0 + power);
    assert e * (1.0 + power) == 1.0;
    assert 1.0 - e == e * power;
  }

  lemma OneSolution(x: real, y: real, power: real)
    requires power > 0.0 && x + power * x == y + power * y
    ensures x == y
  {
    var z := x - y;
    assert z * (1.0 + power) == 0.0;
  }

  /** Home is the favourite exactly if the power is below one. */
  lemma FavouriteIff(homeElo: real, awayElo: real, power: real)
    requires power > 0.0
    ensures var p := EloProbabilities(homeElo, awayElo, power);
            p.home > p.away <==> power < 1.0
  {
    var p := EloProbabilities(homeElo, awayElo, power);
    EloRatio(homeElo, awayElo, power);
    Favoured(p.home, p.away, power);
  }

  lemma EloRatio(homeElo: real, awayElo: real, power: real)
    requires power > 0.0
    ensures var p := EloProbabilities(homeElo, awayElo, power); p.home > 0.0 && p.away == power * p.home
  {
    RatedSetIff(homeElo, awayElo, power, EloProbabilities(homeElo, awayElo, power));
    EloIsSound(homeElo, awayElo, power);
  }

  lemma Favoured(home: real, away: real, power: real)
    requires home > 0.0 && away == power * home
    ensures home > away <==> power < 1.0
  {
    ProductOrder(1.0, power, home);
    assert 1.0 * home == home;
  }

  lemma RatiosCrossed(home: real, away: real, power: real, home': real, away': real, smaller: real)
    requires home > 0.0 && away == power * home && home' > 0.0 && away' == smaller * home' && smaller <= power
    ensures home * away' <= home' * away
  {
    ProductPositive(home, home');
    if smaller < power {
      Ordered(smaller, power, home * home');
    }
    assert home * (smaller * home') == smaller * (home * home');
    assert home' * (power * home) == power * (home * home');
  }

  /** A smaller power never lowers the ratio of home to away. */
  lemma SmallerPowerRaises(homeElo: real, awayElo: real, power: real, homeElo': real, awayElo': real, smaller: real)
    requires 0.0 < smaller <= power
    ensures RatioAtMost(EloProbabilities(homeElo, awayElo, power), EloProbabilities(homeElo', awayElo', smaller))
  {
    var p, q := EloProbabilities(homeElo, awayElo, power), EloProbabilities(homeElo', awayElo', smaller);
    EloRatio(homeElo, awayElo, power);
    EloRatio(homeElo', awayElo', smaller);
    RatiosCrossed(p.home, p.away, power, q.home, q.away, smaller);
  }

  /** A wider gap between the ratings never raises the draw, whichever side is ahead and whatever the powers. */
  lemma DrawFalls(homeElo: real, awayElo: real, power: real, homeElo': real, awayElo': real, power': real)
    requires power > 0.0 && power' > 0.0 && Abs(homeElo - awayElo) <= Abs(homeElo' - awayElo')
    ensures EloProbabilities(homeElo', awayElo', power').draw <= EloProbabilities(homeElo, awayElo, power).draw
  {
  }

  function Clamp(x: real, low: real, high: real): real {
    Max(low, Min(high, x))
  }

  /** Two hundredths for every hundred million of value. */
  function Effect(mvGap: real): real {
    (mvGap / 100000000.0) * 0.02
  }

  /** The arguments given to the new set, before it settles. */
  function ClampedForValue(p: Probabilities, effect: real): Probabilities
    requires p.Sum() > 0.0
  {
    var total := p.home + effect + p.draw + (p.away - effect);
    Probabilities(
      Clamp((p.home + effect) / total, 0.05, 0.85),
      Clamp(p.draw / total, 0.10, 0.40),
      Clamp((p.away - effect) / total, 0.05, 0.85))
  }

  function AdjustForMarketValue(p: Probabilities, mvGap: real): Probabilities
    requires p.Sum() > 0.0
  {
    Settled(ClampedForValue(p, Effect(mvGap)))
  }

  /** The draw is neither divided nor clamped. */
  function ClampedForInjury(p: Probabilities, effect: real): Probabilities
    requires p.Sum() > 0.0
  {
    var total := p.home - effect + p.draw + (p.away + effect);
    Probabilities(
      Clamp((p.home - effect) / total, 0.05, 0.85),
      p.draw,
      Clamp((p.away + effect) / total, 0.05, 0.85))
  }

  /** Half a hundredth for every injury. */
  function InjuryEffect(injuryGap: int): real {
    injuryGap as real * 0.005
  }

  function AdjustForInjury(p: Probabilities, injuryGap: int): Probabilities
    requires p.Sum() > 0.0 && p.draw > 0.0
  {
    Settled(ClampedForInjury(p, InjuryEffect(injuryGap)))
  }

  /** Within the limits, a hundred million of value moves exactly two hundredths from away to home. */
  lemma ValueMoves(p: Probabilities, gap: real)
    requires p.Sum() == 1.0 && 0.1 <= p.draw <= 0.4
    requires 0.05 <= p.home + gap / 5000000000.0 <= 0.85 && 0.05 <= p.away - gap / 5000000000.0 <= 0.85
    ensures AdjustForMarketValue(p, gap)
            == Probabilities(p.home + gap / 5000000000.0, p.draw, p.away - gap / 5000000000.0)
  {
    assert Effect(gap) == gap / 5000000000.0;
    ValuedWithin(p, Effect(gap));
  }

  lemma ValuedWithin(p: Probabilities, e: real)
    requires p.Sum() == 1.0 && 0.1 <= p.draw <= 0.4
    requires 0.05 <= p.home + e <= 0.85 && 0.05 <= p.away - e <= 0.85
    ensures Settled(ClampedForValue(p, e)) == Probabilities(p.home + e, p.draw, p.away - e)
  {
    assert p.home + e + p.draw + (p.away - e) == 1.0;
    var q := ClampedForValue(p, e);
    assert q.home == p.home + e;
    assert q.away == p.away - e;
    assert q.Sum() == 1.0;
  }

  /** Within the limits, an injury at home moves exactly half a hundredth from home to away. */
  lemma InjuriesMove(p: Probabilities, injuries: int)
    requires p.Sum() == 1.0 && p.draw > 0.0
    requires 0.05 <= p.home - 0.005 * injuries as real <= 0.85 && 0.05 <= p.away + 0.005 * injuries as real <= 0.85
    ensures AdjustForInjury(p, injuries)
            == Probabilities(p.home - 0.005 * injuries as real, p.draw, p.away + 0.005 * injuries as real)
  {
    InjuredWithin(p, InjuryEffect(injuries));
  }

  lemma InjuredWithin(p: Probabilities, e: real)
    requires p.Sum() == 1.0 && 0.05 <= p.home - e <= 0.85 && 0.05 <= p.away + e <= 0.85
    ensures Settled(ClampedForInjury(p, e)) == Probabilities(p.home - e, p.draw, p.away + e)
  {
    assert p.home - e + p.draw + (p.away + e) == 1.0;
    assert (p.home - e) / 1.0 == p.home - e && (p.away + e) / 1.0 == p.away + e;
  }

  datatype Adjustment = MarketValue(gap: real) | Injury(injuries: int)

  function Adjusted(p: Probabilities, a: Adjustment): Probabilities
    requires Sound(p)
  {
    match a
    case MarketValue(gap) => AdjustForMarketValue(p, gap)
    case Injury(injuries) => AdjustForInjury(p, injuries)
  }

  lemma AdjustedIsSound(p: Probabilities, a: Adjustment)
    requires Sound(p)
    ensures Sound(Adjusted(p, a))
  {
    match a
    case MarketValue(gap) =>
      SettledIsSound(ClampedForValue(p, Effect(gap)));
    case Injury(injuries) =>
      SettledIsSound(ClampedForInjury(p, InjuryEffect(injuries)));
  }

  /** The predictor makes a new set for every adjustment. */
  method Adjust(probs: ProbabilitySet, a: Adjustment) returns (adjusted: ProbabilitySet)
    requires Sound(probs.Value())
    ensures fresh(adjusted) && adjusted.Value() == Adjusted(probs.Value(), a) && Sound(adjusted.Value())
  {
    AdjustedIsSound(probs.Value(), a);
    match a
    case MarketValue(gap) =>
      var effect := Effect(gap);
      var home, away := probs.home + effect, probs.away - effect;
      var total := home + probs.draw + away;
      adjusted := new ProbabilitySet(
        Clamp(home / total, 0.05, 0.85), Clamp(probs.draw / total, 0.10, 0.40), Clamp(away / total, 0.05, 0.85));
    case Injury(injuries) =>
      var effect := InjuryEffect(injuries);
      var home, away := probs.home - effect, probs.away + effect;
      var total := home + probs.draw + away;
      adjusted := new ProbabilitySet(Clamp(home / total, 0.05, 0.85), probs.draw, Clamp(away / total, 0.05, 0.85));
  }

  /** A match's probabilities: from the ratings, then adjusted if there are features. */
  method Predict(homeElo: real, awayElo: real, power: real, features: Option<(real, int)>)
    returns (probs: ProbabilitySet)
    requires power > 0.0
    ensures fresh(probs) && Sound(probs.Value())
    ensures features.None? ==> IsRatedSet(probs.Value(), homeElo, awayElo, power)
    ensures Sound(EloProbabilities(homeElo, awayElo, power))
    ensures probs.Value() == Pipeline(EloProbabilities(homeElo, awayElo, power),
                                      if features.None? then []
                                      else [MarketValue(features.value.0), Injury(features.value.1)])
  {
    EloIsSound(homeElo, awayElo, power);
    var p := EloProbabilities(homeElo, awayElo, power);
    RatedSetIff(homeElo, awayElo, power, p);
    probs := new ProbabilitySet(p.home, p.draw, p.away);
    if features.Some? {
      var steps := [MarketValue(features.value.0), Injury(features.value.1)];
      probs := Adjust(probs, steps[0]);
      probs := Adjust(probs, steps[1]);
      assert steps[1..][1..] == [];
      assert Pipeline(p, steps) == Pipeline(Adjusted(p, steps[0]), steps[1..]);
      assert steps[1..][0] == steps[1];
    }
  }

  /** After any sequence of adjustments the three probabilities are still sound. */
  function Pipeline(p: Probabilities, steps: seq<Adjustment>): (r: Probabilities)
    requires Sound(p)
    ensures Sound(r)
    decreases |steps|
  {
    if steps == [] then p
    else
      AdjustedIsSound(p, steps[0]);
      Pipeline(Adjusted(p, steps[0]), steps[1..])
  }

  // ---------------------------------------------------------------------------------------
  // Monotonicity in the gaps
  // ---------------------------------------------------------------------------------------

  lemma ShareMonotone(x: real, y: real, total: real)
    requires x <= y && total > 0.0
    ensures 0.05 <= Clamp(x / total, 0.05, 0.85) <= Clamp(y / total, 0.05, 0.85)
  {
    QuotientMonotone(x, y, total);
  }

  /** Moving probability from away to home raises home and lowers away, after clamping too; the draw stays. */
  lemma ClampedMoves(p: Probabilities, e: real, f: real)
    requires Sound(p) && e <= f
    ensures var a, b := ClampedForValue(p, e), ClampedForValue(p, f);
            Positive(a) && Positive(b) && a.home <= b.home && b.away <= a.away && a.draw == b.draw
  {
    var total := p.Sum();
    assert p.home + e + p.draw + (p.away - e) == total && p.home + f + p.draw + (p.away - f) == total;
    ShareMonotone(p.home + e, p.home + f, total);
    ShareMonotone(p.away - f, p.away - e, total);
  }

  lemma InjuredMoves(p: Probabilities, e: real, f: real)
    requires Sound(p) && e <= f
    ensures var a, b := ClampedForInjury(p, f), ClampedForInjury(p, e);
            Positive(a) && Positive(b) && a.home <= b.home && b.away <= a.away
  {
    var total := p.Sum();
    assert p.home - e + p.draw + (p.away + e) == total && p.home - f + p.draw + (p.away + f) == total;
    ShareMonotone(p.home - f, p.home - e, total);
    ShareMonotone(p.away + e, p.away + f, total);
  }

  lemma HigherRatio(a: Probabilities, b: Probabilities)
    requires 0.0 <= a.home <= b.home && 0.0 <= b.away <= a.away
    ensures RatioAtMost(a, b)
  {
    ProductMonotone(a.home, a.away, b.home, b.away);
  }

  /** Settling multiplies home and away by the same positive factor, so it keeps the order of the ratios. */
  lemma SettledKeepsCross(p: Probabilities, q: Probabilities)
    requires Positive(p) && Positive(q)
    ensures RatioAtMost(Settled(p), Settled(q)) <==> RatioAtMost(p, q)
  {
    Scaled(p);
    Scaled(q);
    ScaledCross(p, Settled(p), Factor(p), q, Settled(q), Factor(q));
  }

  lemma ScaledCross(p: Probabilities, p': Probabilities, f: real, q: Probabilities, q': Probabilities, g: real)
    requires f > 0.0 && p'.home == p.home * f && p'.away == p.away * f
    requires g > 0.0 && q'.home == q.home * g && q'.away == q.away * g
    ensures RatioAtMost(p', q') <==> RatioAtMost(p, q)
  {
    ProductsScaled(p.home, q.away, q.home, p.away, f, g);
  }

  /** What settling multiplies by. */
  function Factor(p: Probabilities): real
    requires p.Sum() > 0.0
  {
    if Abs(p.Sum() - 1.0) > 0.01 then 1.0 / p.Sum() else 1.0
  }

  lemma Scaled(p: Probabilities)
    requires p.Sum() > 0.0
    ensures Factor(p) > 0.0 && Settled(p).home == p.home * Factor(p) && Settled(p).away == p.away * Factor(p)
  {
    QuotientIsProduct(p.home, p.Sum());
    QuotientIsProduct(p.away, p.Sum());
  }

  lemma EffectMonotone(gap: real, larger: real)
    requires gap <= larger
    ensures Effect(gap) <= Effect(larger)
  {
  }

  /** The value adjustment by itself: a larger gap in favour of the home side never lowers the ratio of home to away. */
  lemma HomeRatioMonotone(p: Probabilities, gap: real, larger: real)
    requires Sound(p) && gap <= larger
    ensures RatioAtMost(AdjustForMarketValue(p, gap), AdjustForMarketValue(p, larger))
  {
    EffectMonotone(gap, larger);
    var a, b := ClampedForValue(p, Effect(gap)), ClampedForValue(p, Effect(larger));
    ClampedMoves(p, Effect(gap), Effect(larger));
    HigherRatio(a, b);
    SettledKeepsCross(a, b);
  }

  lemma InjuryEffectMonotone(injuries: int, more: int)
    requires injuries <= more
    ensures InjuryEffect(injuries) <= InjuryEffect(more)
  {
  }

  /** More injuries on the home side never raise the ratio of home to away. */
  lemma InjuryRatioMonotone(p: Probabilities, injuries: int, more: int)
    requires Sound(p) && injuries <= more
    ensures RatioAtMost(AdjustForInjury(p, more), AdjustForInjury(p, injuries))
  {
    InjuryEffectMonotone(injuries, more);
    var a, b := ClampedForInjury(p, InjuryEffect(more)), ClampedForInjury(p, InjuryEffect(injuries));
    InjuredMoves(p, InjuryEffect(injuries), InjuryEffect(more));
    HigherRatio(a, b);
    SettledKeepsCross(a, b);
  }

  // ---------------------------------------------------------------------------------------
  // Expected value
  // ---------------------------------------------------------------------------------------

  datatype Odds = Odds(home: Option<real>, draw: Option<real>, away: Option<real>)

  predicate ValidOdds(o: Odds) {
    && o.home.Some? && o.home.value > 1.0
    && o.draw.Some? && o.draw.value > 1.0
    && o.away.Some? && o.away.value > 1.0
  }

  datatype Values = Values(home: real, draw: real, away: real)

  /** The estimate without odds: p less its implied market probability p * 1.05, moved by the confidence band. */
  function TheoreticalEV(p: real): real {
    var ev := p - p * 1.05;
    if p > 0.70 then Min(0.10, ev + 0.05)
    else if p > 0.60 then Min(0.05, ev + 0.02)
    else if p > 0.50 then Min(0.03, ev)
    else if p > 0.40 then Max(-0.05, ev - 0.02)
    else Max(-0.10, ev - 0.05)
  }

  function ExpectedValues(p: Probabilities, odds: Option<Odds>): Values {
    if odds.Some? && ValidOdds(odds.value) then
      var o := odds.value;
      Values(p.home * o.home.value - 1.0, p.draw * o.draw.value - 1.0, p.away * o.away.value - 1.0)
    else Values(TheoreticalEV(p.home), TheoreticalEV(p.draw), TheoreticalEV(p.away))
  }

  /** What the odds add up to as probabilities. */
  function Implied(o: Odds): real
    requires ValidOdds(o)
  {
    1.0 / o.home.value + 1.0 / o.draw.value + 1.0 / o.away.value
  }

  /** There is value on an outcome exactly when its probability is above the one that its odds imply. */
  lemma ValueIff(p: real, odds: real)
    requires odds > 1.0
    ensures p * odds - 1.0 > 0.0 <==> p > 1.0 / odds
  {
    var i := 1.0 / odds;
    ProductOrder(p, i, odds);
    var x, y := p * odds, i * odds;
    assert y == 1.0;
    assert x > y <==> p > i;
  }

  /** What a stake of one is expected to gain: the odds less the stake if it wins, minus the stake if not. */
  predicate IsGain(value: real, p: real, odds: real)
    requires odds > 1.0
  {
    && value == p * (odds - 1.0) + (1.0 - p) * -1.0
    && (value > 0.0 <==> p > 1.0 / odds)
  }

  /** With valid odds, each outcome's value is the gain expected on that outcome. */
  lemma ValuesAreGains(p: Probabilities, o: Odds)
    requires ValidOdds(o)
    ensures var v := ExpectedValues(p, Some(o));
            && IsGain(v.home, p.home, o.home.value)
            && IsGain(v.draw, p.draw, o.draw.value)
            && IsGain(v.away, p.away, o.away.value)
  {
    ValueIsGain(p.home, o.home.value);
    ValueIsGain(p.draw, o.draw.value);
    ValueIsGain(p.away, o.away.value);
  }

  lemma ValueIsGain(p: real, odds: real)
    requires odds > 1.0
    ensures IsGain(p * odds - 1.0, p, odds)
  {
    ValueIff(p, odds);
    Distributes(odds, 1.0, p);
  }

  ghost predicate ThreeValueBets(p: Probabilities, o: Odds) {
    var v := ExpectedValues(p, Some(o));
    Sound(p) && v.home > 0.0 && v.draw > 0.0 && v.away > 0.0
  }

  predicate AboveImplied(p: Probabilities, o: Odds)
    requires ValidOdds(o)
  {
    p.home > 1.0 / o.home.value && p.draw > 1.0 / o.draw.value && p.away > 1.0 / o.away.value
  }

  lemma ValueIsAboveImplied(p: Probabilities, o: Odds)
    requires ValidOdds(o)
    ensures ThreeValueBets(p, o) <==> Sound(p) && AboveImplied(p, o)
  {
    ValueIff(p.home, o.home.value);
    ValueIff(p.draw, o.draw.value);
    ValueIff(p.away, o.away.value);
  }

  /** The implied probabilities, raised by equal parts to a sum of 1.01. */
  lemma RaisedOdds(o: Odds) returns (p: Probabilities)
    requires ValidOdds(o) && Implied(o) < 1.01
    ensures Sound(p) && AboveImplied(p, o)
  {
    var h, d, a := 1.0 / o.home.value, 1.0 / o.draw.value, 1.0 / o.away.value;
    QuotientPositive(1.0, o.home.value);
    QuotientPositive(1.0, o.draw.value);
    QuotientPositive(1.0, o.away.value);
    var part := (1.01 - (h + d + a)) / 3.0;
    p := Probabilities(h + part, d + part, a + part);
  }

  /** A sound set that finds value on all three outcomes exists exactly against odds that imply less than 1.01. */
  lemma ThreeValueBetsIff(o: Odds)
    requires ValidOdds(o)
    ensures (exists p :: ThreeValueBets(p, o)) <==> Implied(o) < 1.01
  {
    if p :| ThreeValueBets(p, o) {
      ValueIsAboveImplied(p, o);
    }
    if Implied(o) < 1.01 {
      var p := RaisedOdds(o);
      ValueIsAboveImplied(p, o);
    }
  }

  /** A twentieth of the probability less, moved by the band that it falls in. */
  predicate IsEstimate(value: real, p: real) {
    && (p > 0.7 ==> value == 0.05 - 0.05 * p)
    && (0.6 < p <= 0.7 ==> value == 0.02 - 0.05 * p)
    && (0.5 < p <= 0.6 ==> value == -0.05 * p)
    && (0.4 < p <= 0.5 ==> value == -0.02 - 0.05 * p)
    && (p <= 0.4 ==> value == -0.05 - 0.05 * p)
    && (value > 0.0 <==> 0.7 < p < 1.0)
  }

  /** Without valid odds the limits of the five bands are never reached: they cut nothing off. */
  lemma LimitsNeverBind(p: Probabilities, odds: Option<Odds>)
    requires Sound(p) && !(odds.Some? && ValidOdds(odds.value))
    ensures var v := ExpectedValues(p, odds);
            IsEstimate(v.home, p.home) && IsEstimate(v.draw, p.draw) && IsEstimate(v.away, p.away)
  {
  }

  /** Without valid odds no outcome of a sound set passes the thresholds of 5% and 10%, so none is ever flagged. */
  lemma NoFlagsWithoutOdds(p: Probabilities, odds: Option<Odds>)
    requires Sound(p) && !(odds.Some? && ValidOdds(odds.value))
    ensures var v := ExpectedValues(p, odds); v.home < 0.015 && v.draw < 0.015 && v.away < 0.015
  {
  }
}
