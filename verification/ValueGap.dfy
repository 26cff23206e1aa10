/**
 What a larger value gap does to a prediction in the end. The injury adjustment comes after the
 value adjustment, and a set is only renormalised when it is off by more than a hundredth: at
 that threshold the injuries meet numbers of another scale, and the ratio of home to away can
 fall as the gap grows.
 */
module ValueGap {
  import opened Reals
  import opened MatchOdds

  /** What the ratings give. */
  predicate Rated(p: Probabilities) {
    Positive(p) && p.Sum() == 1.0 && 0.2 <= p.draw <= 0.28
  }

  lemma EloIsRated(homeElo: real, awayElo: real, power: real)
    requires power > 0.0
    ensures Rated(EloProbabilities(homeElo, awayElo, power))
  {
    EloIsSound(homeElo, awayElo, power);
  }

  /** The predictor's two adjustments, one after the other. */
  function Predicted(p: Probabilities, gap: real, injuries: int): Probabilities
    requires Sound(p)
  {
    Pipeline(p, [MarketValue(gap), Injury(injuries)])
  }

  /** Whatever the two gaps, the larger never has the lower ratio. */
  ghost predicate GapKeepsOrder(p: Probabilities, injuries: int)
    requires Sound(p)
  {
    forall gap, larger :: gap <= larger ==> RatioAtMost(Predicted(p, gap, injuries), Predicted(p, larger, injuries))
  }

  /** Between the two adjustments. */
  function Valued(p: Probabilities, effect: real): Probabilities
    requires p.Sum() > 0.0
  {
    Settled(ClampedForValue(p, effect))
  }

  lemma ValuedIsSound(p: Probabilities, effect: real)
    requires Sound(p)
    ensures Sound(Valued(p, effect))
  {
    SettledIsSound(ClampedForValue(p, effect));
  }

  /** The clamped shares at the end, which the last settling only scales. */
  function Shares(p: Probabilities, effect: real, injuries: int): Probabilities
    requires Sound(p)
  {
    ValuedIsSound(p, effect);
    ClampedForInjury(Valued(p, effect), InjuryEffect(injuries))
  }

  lemma PredictedIs(p: Probabilities, gap: real, injuries: int)
    requires Sound(p)
    ensures Predicted(p, gap, injuries) == Settled(Shares(p, Effect(gap), injuries))
    ensures Positive(Shares(p, Effect(gap), injuries))
  {
    var steps := [MarketValue(gap), Injury(injuries)];
    ValuedIsSound(p, Effect(gap));
    assert steps[1..] == [Injury(injuries)] && steps[1..][1..] == [];
    assert Pipeline(p, steps) == Pipeline(Adjusted(p, steps[0]), steps[1..]);
  }

  /** The order of two predictions is the order of their shares. */
  lemma PredictedOrder(p: Probabilities, gap: real, larger: real, injuries: int)
    requires Sound(p)
    ensures RatioAtMost(Predicted(p, gap, injuries), Predicted(p, larger, injuries))
            <==> RatioAtMost(Shares(p, Effect(gap), injuries), Shares(p, Effect(larger), injuries))
  {
    PredictedIs(p, gap, injuries);
    PredictedIs(p, larger, injuries);
    SettledKeepsCross(Shares(p, Effect(gap), injuries), Shares(p, Effect(larger), injuries));
  }

  /** The gap that has the effect. */
  function GapFor(effect: real): real {
    effect * 5000000000.0
  }

  /** So one pair of effects out of order is enough. */
  lemma OutOfOrder(p: Probabilities, e: real, f: real, injuries: int)
    requires Sound(p) && e <= f && !RatioAtMost(Shares(p, e, injuries), Shares(p, f, injuries))
    ensures !GapKeepsOrder(p, injuries)
  {
    assert Effect(GapFor(e)) == e && Effect(GapFor(f)) == f;
    PredictedOrder(p, GapFor(e), GapFor(f), injuries);
    assert GapFor(e) <= GapFor(f);
  }

  // ---------------------------------------------------------------------------------------
  // At the threshold of renormalisation
  // ---------------------------------------------------------------------------------------

  /** With this effect the sum is off by exactly a hundredth: no renormalisation yet. */
  lemma AtThreshold(p: Probabilities)
    requires Rated(p)
    ensures Valued(p, p.away - 0.04) == Probabilities(0.96 - p.draw, p.draw, 0.05)
  {
    assert ClampedForValue(p, p.away - 0.04) == Probabilities(0.96 - p.draw, p.draw, 0.05);
  }

  /** And with a little more the set is renormalised. */
  lemma PastThreshold(p: Probabilities)
    requires Rated(p)
    ensures Valued(p, p.away - 0.0399)
            == Probabilities((0.9601 - p.draw) / 1.0101, p.draw / 1.0101, 0.05 / 1.0101)
  {
    assert ClampedForValue(p, p.away - 0.0399) == Probabilities(0.9601 - p.draw, p.draw, 0.05);
  }

  lemma InjuredShares(q: Probabilities, sum: real, i: real)
    requires q.Sum() == sum && sum > 0.0
    ensures var s := ClampedForInjury(q, i);
            s.home == Clamp((q.home - i) / sum, 0.05, 0.85) && s.away == Clamp((q.away + i) / sum, 0.05, 0.85)
  {
    assert q.home - i + q.draw + (q.away + i) == sum;
  }

  lemma SharesAtThreshold(p: Probabilities, injuries: int)
    requires Rated(p)
    ensures var s, i := Shares(p, p.away - 0.04, injuries), InjuryEffect(injuries);
            s.home == Clamp((0.96 - p.draw - i) / 1.01, 0.05, 0.85) && s.away == Clamp((0.05 + i) / 1.01, 0.05, 0.85)
  {
    AtThreshold(p);
    InjuredShares(Valued(p, p.away - 0.04), 1.01, InjuryEffect(injuries));
  }

  lemma SharesPastThreshold(p: Probabilities, injuries: int)
    requires Rated(p)
    ensures var s, i := Shares(p, p.away - 0.0399, injuries), InjuryEffect(injuries);
            && s.home == Clamp((0.9601 - p.draw) / 1.0101 - i, 0.05, 0.85)
            && s.away == Clamp(0.05 / 1.0101 + i, 0.05, 0.85)
  {
    PastThreshold(p);
    InjuredShares(Valued(p, p.away - 0.0399), 1.0, InjuryEffect(injuries));
  }

  /** Up to 161 injuries more at home, the shares just past the threshold are the lower ones. */
  lemma RatioFalls(p: Probabilities, injuries: int)
    requires Rated(p) && 1 <= injuries <= 161
    ensures !RatioAtMost(Shares(p, p.away - 0.04, injuries), Shares(p, p.away - 0.0399, injuries))
  {
    var i := InjuryEffect(injuries);
    assert 0.005 <= i <= 0.805;
    SharesAtThreshold(p, injuries);
    SharesPastThreshold(p, injuries);
    ClampedOrder((0.9601 - p.draw) / 1.0101 - i, (0.96 - p.draw - i) / 1.01);
    ClampedOrder((0.05 + i) / 1.01, 0.05 / 1.0101 + i);
    LowerRatio(Shares(p, p.away - 0.04, injuries), Shares(p, p.away - 0.0399, injuries));
  }

  /** Clamping keeps the order, and keeps it strict if the lower number is between the limits. */
  lemma ClampedOrder(x: real, y: real)
    requires x <= y
    ensures 0.05 <= Clamp(x, 0.05, 0.85) <= Clamp(y, 0.05, 0.85)
    ensures x < y && x < 0.85 && y > 0.05 ==> Clamp(x, 0.05, 0.85) < Clamp(y, 0.05, 0.85)
  {
  }

  lemma LowerRatio(a: Probabilities, b: Probabilities)
    requires a.home >= b.home > 0.0 && b.away > a.away > 0.0
    ensures !RatioAtMost(a, b)
  {
    ProductMonotone(b.home, a.away, a.home, a.away);
    Ordered(a.away, b.away, a.home);
  }

  // ---------------------------------------------------------------------------------------
  // No injuries, and very many
  // ---------------------------------------------------------------------------------------

  /** The larger part of the larger whole. */
  lemma PartOfSum(h: real, a: real, k: real, b: real, d: real)
    requires 0.0 < h <= k && 0.0 < b <= a && d > 0.0
    ensures h / (h + d + a) <= k / (k + d + b)
  {
    ProductMonotone(h, d + a, k, d + b);
    Distributes2(h, k, d + b);
    Distributes2(k, h, d + a);
    QuotientsAcross(h, h + d + a, k, k + d + b);
  }

  lemma Distributes2(x: real, y: real, z: real)
    ensures x * (y + z) == x * y + x * z
  {
  }

  /** Without injuries, the shares are those of the clamped set, renormalised or not. */
  lemma SharesWithoutInjuries(p: Probabilities, effect: real)
    requires Sound(p)
    ensures var c, s := ClampedForValue(p, effect), Shares(p, effect, 0);
            && c.Sum() > 0.0
            && s.home == Clamp(c.home / c.Sum(), 0.05, 0.85) && s.away == Clamp(c.away / c.Sum(), 0.05, 0.85)
  {
    var c := ClampedForValue(p, effect);
    assert InjuryEffect(0) == 0.0;
    if Abs(c.Sum() - 1.0) > 0.01 {
      QuotientsSum(c);
      InjuredShares(Valued(p, effect), 1.0, 0.0);
    } else {
      InjuredShares(c, c.Sum(), 0.0);
    }
  }

  /** What a larger effect does to the parts of the sum. */
  lemma PartsMove(p: Probabilities, e: real, f: real)
    requires Sound(p) && e <= f
    ensures var a, b := ClampedForValue(p, e), ClampedForValue(p, f);
            && a.Sum() > 0.0 && b.Sum() > 0.0
            && a.home / a.Sum() <= b.home / b.Sum() && b.away / b.Sum() <= a.away / a.Sum()
  {
    var a, b := ClampedForValue(p, e), ClampedForValue(p, f);
    ClampedMoves(p, e, f);
    PartOfSum(a.home, a.away, b.home, b.away, a.draw);
    PartOfSum(b.away, b.home, a.away, a.home, a.draw);
    assert b.away + a.draw + b.home == b.Sum() && a.away + a.draw + a.home == a.Sum();
  }

  lemma OrderWithoutInjuries(p: Probabilities, e: real, f: real)
    requires Sound(p) && e <= f
    ensures RatioAtMost(Shares(p, e, 0), Shares(p, f, 0))
  {
    var a, b := ClampedForValue(p, e), ClampedForValue(p, f);
    PartsMove(p, e, f);
    SharesWithoutInjuries(p, e);
    SharesWithoutInjuries(p, f);
    ClampedOrder(a.home / a.Sum(), b.home / b.Sum());
    ClampedOrder(b.away / b.Sum(), a.away / a.Sum());
    HigherRatio(Shares(p, e, 0), Shares(p, f, 0));
  }

  /** Many injuries at home: the home share is the least there is, the away share the largest. */
  lemma SharesWithMany(p: Probabilities, effect: real, injuries: int)
    requires Rated(p) && injuries >= 162
    ensures var s := Shares(p, effect, injuries); s.home == 0.05 && s.away == 0.85
  {
    var q, i := Valued(p, effect), InjuryEffect(injuries);
    assert i >= 0.81;
    ValuedBounds(p, effect);
    InjuredShares(q, q.Sum(), i);
    LeastShare(q.home - i, q.Sum());
    LargestShare(q.away + i, q.Sum());
  }

  lemma LeastShare(x: real, sum: real)
    requires sum > 0.0 && x <= 0.05 * sum
    ensures Clamp(x / sum, 0.05, 0.85) == 0.05
  {
    QuotientsAcross(x, sum, 0.05, 1.0);
  }

  lemma LargestShare(x: real, sum: real)
    requires sum > 0.0 && 0.85 * sum <= x
    ensures Clamp(x / sum, 0.05, 0.85) == 0.85
  {
    QuotientsAcross(0.85, 1.0, x, sum);
  }

  /** From a sum of one there is nothing to divide by. */
  lemma ClampedIs(p: Probabilities, effect: real)
    requires Rated(p)
    ensures ClampedForValue(p, effect)
            == Probabilities(Clamp(p.home + effect, 0.05, 0.85), p.draw, Clamp(p.away - effect, 0.05, 0.85))
  {
    assert p.home + effect + p.draw + (p.away - effect) == 1.0;
  }

  /** Clamping two shares only adds to them, up to both limits. */
  lemma ClampedSum(x: real, y: real)
    requires 0.72 <= x + y <= 0.8
    ensures x + y <= Clamp(x, 0.05, 0.85) + Clamp(y, 0.05, 0.85) <= 0.9
  {
  }

  lemma ClampedBounds(p: Probabilities, effect: real)
    requires Rated(p)
    ensures var c := ClampedForValue(p, effect);
            c.draw == p.draw && 0.05 <= c.home <= 0.85 && 0.05 <= c.away <= 0.85 && 1.0 <= c.Sum() <= 1.18
  {
    ClampedIs(p, effect);
    ClampedSum(p.home + effect, p.away - effect);
  }

  /** Settling a set with these bounds. */
  lemma SettledBounds(c: Probabilities)
    requires 0.05 <= c.home <= 0.85 && 0.05 <= c.away <= 0.85 && c.draw > 0.0 && 1.0 <= c.Sum() <= 1.18
    requires Abs(c.Sum() - 1.0) > 0.01
    ensures var q := Settled(c); q.Sum() == 1.0 && q.away >= 0.04 && q.home <= 0.85
  {
    QuotientsSum(c);
    QuotientsAcross(0.04, 1.0, c.away, c.Sum());
    QuotientsAcross(c.home, c.Sum(), 0.85, 1.0);
  }

  lemma ValuedBounds(p: Probabilities, effect: real)
    requires Rated(p)
    ensures var q := Valued(p, effect);
            0.99 <= q.Sum() <= 1.01 && q.home <= 0.85 && 0.85 * q.Sum() <= q.away + 0.81
  {
    var c := ClampedForValue(p, effect);
    ClampedBounds(p, effect);
    if Abs(c.Sum() - 1.0) > 0.01 {
      SettledBounds(c);
      ValuedIsSound(p, effect);
    }
  }

  // ---------------------------------------------------------------------------------------
  // The same, seen from the away side
  // ---------------------------------------------------------------------------------------

  function Mirrored(p: Probabilities): Probabilities {
    Probabilities(p.away, p.draw, p.home)
  }

  lemma ValuedMirrored(p: Probabilities, effect: real)
    requires Sound(p)
    ensures Valued(Mirrored(p), -effect) == Mirrored(Valued(p, effect))
  {
    var c := ClampedForValue(p, effect);
    assert p.away + -effect + p.draw + (p.home - -effect) == p.home + effect + p.draw + (p.away - effect);
    assert ClampedForValue(Mirrored(p), -effect) == Mirrored(c);
    assert Mirrored(c).Sum() == c.Sum();
  }

  lemma InjuryMirrored(q: Probabilities, effect: real)
    requires q.Sum() > 0.0
    ensures Mirrored(q).Sum() > 0.0
    ensures ClampedForInjury(Mirrored(q), -effect) == Mirrored(ClampedForInjury(q, effect))
  {
    assert q.away - -effect + q.draw + (q.home + -effect) == q.home - effect + q.draw + (q.away + effect);
  }

  lemma SharesMirrored(p: Probabilities, effect: real, injuries: int)
    requires Sound(p)
    ensures Sound(Mirrored(p)) && Shares(Mirrored(p), -effect, -injuries) == Mirrored(Shares(p, effect, injuries))
  {
    ValuedMirrored(p, effect);
    ValuedIsSound(p, effect);
    InjuryMirrored(Valued(p, effect), InjuryEffect(injuries));
    assert InjuryEffect(-injuries) == -InjuryEffect(injuries);
  }

  /** Effects in the other order, on the mirrored set. */
  lemma OrderMirrored(p: Probabilities, e: real, f: real, injuries: int)
    requires Sound(p)
    ensures Sound(Mirrored(p))
    ensures RatioAtMost(Shares(p, e, injuries), Shares(p, f, injuries))
            <==> RatioAtMost(Shares(Mirrored(p), -f, -injuries), Shares(Mirrored(p), -e, -injuries))
  {
    SharesMirrored(p, e, injuries);
    SharesMirrored(p, f, injuries);
    RatioMirrored(Shares(p, e, injuries), Shares(p, f, injuries));
  }

  lemma RatioMirrored(a: Probabilities, b: Probabilities)
    ensures RatioAtMost(a, b) <==> RatioAtMost(Mirrored(b), Mirrored(a))
  {
  }

  // ---------------------------------------------------------------------------------------
  // When a larger gap never lowers the ratio
  // ---------------------------------------------------------------------------------------

  /** The order that a condition on the injuries gives. */
  lemma OrderKept(p: Probabilities, e: real, f: real, injuries: int)
    requires Rated(p) && e <= f && (injuries == 0 || injuries >= 162 || injuries <= -162)
    ensures RatioAtMost(Shares(p, e, injuries), Shares(p, f, injuries))
  {
    if injuries == 0 {
      OrderWithoutInjuries(p, e, f);
    } else if injuries >= 162 {
      SharesWithMany(p, e, injuries);
      SharesWithMany(p, f, injuries);
    } else {
      OrderMirrored(p, e, f, injuries);
      SharesWithMany(Mirrored(p), -f, -injuries);
      SharesWithMany(Mirrored(p), -e, -injuries);
    }
  }

  /**
   For what the ratings give, a larger value gap never lowers the predicted ratio of home to away
   exactly if the injuries are even, or so many that they decide alone.
   */
  lemma GapKeepsOrderIff(p: Probabilities, injuries: int)
    requires Rated(p)
    ensures GapKeepsOrder(p, injuries) <==> injuries == 0 || injuries >= 162 || injuries <= -162
  {
    if injuries == 0 || injuries >= 162 || injuries <= -162 {
      forall gap: real, larger: real | gap <= larger
        ensures RatioAtMost(Predicted(p, gap, injuries), Predicted(p, larger, injuries))
      {
        EffectMonotone(gap, larger);
        OrderKept(p, Effect(gap), Effect(larger), injuries);
        PredictedOrder(p, gap, larger, injuries);
      }
    } else if injuries > 0 {
      RatioFalls(p, injuries);
      OutOfOrder(p, p.away - 0.04, p.away - 0.0399, injuries);
    } else {
      RatioFalls(Mirrored(p), -injuries);
      OrderMirrored(p, 0.0399 - p.home, 0.04 - p.home, injuries);
      OutOfOrder(p, 0.0399 - p.home, 0.04 - p.home, injuries);
    }
  }

  /** A home side some sixty points ahead, one injury more at home: a larger gap, and a lower ratio. */
  lemma LargerGapLowerRatio()
    ensures var p := Probabilities(0.49, 0.25, 0.26);
            Rated(p) && !RatioAtMost(Predicted(p, 1100000000.0, 1), Predicted(p, 1100500000.0, 1))
  {
    var p := Probabilities(0.49, 0.25, 0.26);
    RatioFalls(p, 1);
    assert Effect(1100000000.0) == p.away - 0.04 && Effect(1100500000.0) == p.away - 0.0399;
    PredictedOrder(p, 1100000000.0, 1100500000.0, 1);
  }
}
