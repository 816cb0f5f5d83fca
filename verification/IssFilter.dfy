/**
 * Three-stage noise filter for the Impact Severity Score (src/iss_filter.cpp), over real arithmetic:
 * exponential smoothing, a slow background that never exceeds the smoothed value, and a count of
 * consecutive frames at or above a threshold that grows with speed.
 */
module IssFilters {
  import opened Common

  datatype Config = Config(
    emaAlpha: real, bgAlpha: real, spikeThreshold: real, speedAdaptiveFactor: real,
    minConsecutiveFrames: int, speedFloorKmh: real)

  const DEFAULTS := Config(0.4, 0.997, 0.1, 0.0015, 2, 3.0)

  datatype State = State(smoothed: real, background: real, consecutive: int, initialized: bool)

  const RESET := State(0.0, 0.0, 0, false)

  datatype Sample = Sample(iss: real, speedMs: real)

  datatype Result = Result(smoothed: real, background: real, detrended: real, threshold: real, impact: bool)

  function SpeedKmh(sample: Sample): real { sample.speedMs * 3.6 }

  predicate Moving(cfg: Config, sample: Sample) { SpeedKmh(sample) >= cfg.speedFloorKmh }

  function Threshold(cfg: Config, sample: Sample): real {
    cfg.spikeThreshold + cfg.speedAdaptiveFactor * SpeedKmh(sample)
  }

  /** `weight` of `u` and the rest of `v`. */
  function Blend(weight: real, u: real, v: real): real { weight * u + (1.0 - weight) * v }

  function Smoothed(cfg: Config, s: State, iss: real): real {
    Blend(cfg.emaAlpha, iss, if s.initialized then s.smoothed else iss)
  }

  function Background(cfg: Config, s: State, iss: real): real {
    var smoothed := Smoothed(cfg, s, iss);
    MinReal(Blend(cfg.bgAlpha, if s.initialized then s.background else iss, smoothed), smoothed)
  }

  function Detrended(cfg: Config, s: State, iss: real): real {
    MaxReal(0.0, Smoothed(cfg, s, iss) - Background(cfg, s, iss))
  }

  /** In state `s`, `sample` is in motion and its detrended score reaches the threshold. */
  predicate Above(cfg: Config, s: State, sample: Sample) {
    Moving(cfg, sample) && Detrended(cfg, s, sample.iss) >= Threshold(cfg, sample)
  }

  function Next(cfg: Config, s: State, sample: Sample): State {
    if !Moving(cfg, sample) then s.(consecutive := 0)
    else
      State(Smoothed(cfg, s, sample.iss), Background(cfg, s, sample.iss),
            if Above(cfg, s, sample) then s.consecutive + 1 else 0, true)
  }

  function Report(cfg: Config, s: State, sample: Sample): Result {
    if !Moving(cfg, sample) then Result(0.0, s.background, 0.0, 0.0, false)
    else
      var t := Next(cfg, s, sample);
      Result(t.smoothed, t.background, Detrended(cfg, s, sample.iss), Threshold(cfg, sample),
             t.consecutive >= cfg.minConsecutiveFrames)
  }

  class IssFilter {
    const cfg: Config
    var smoothed: real
    var background: real
    var consecutiveAbove: int
    var initialized: bool

    function Now(): State
      reads this
    {
      State(smoothed, background, consecutiveAbove, initialized)
    }

    constructor (cfg: Config)
      ensures this.cfg == cfg && Now() == RESET
    {
      this.cfg := cfg;
      smoothed, background, consecutiveAbove, initialized := 0.0, 0.0, 0, false;
    }

    method Update(normalizedIss: real, speedMs: real) returns (r: Result)
      modifies this
      ensures Now() == Next(cfg, old(Now()), Sample(normalizedIss, speedMs))
      ensures r == Report(cfg, old(Now()), Sample(normalizedIss, speedMs))
    {
      var speedKmh := speedMs * 3.6;
      if speedKmh < cfg.speedFloorKmh {
        consecutiveAbove := 0;
        return Result(0.0, background, 0.0, 0.0, false);
      }
      if !initialized {
        smoothed, background, initialized := normalizedIss, normalizedIss, true;
      }
      smoothed := cfg.emaAlpha * normalizedIss + (1.0 - cfg.emaAlpha) * smoothed;
      background := cfg.bgAlpha * background + (1.0 - cfg.bgAlpha) * smoothed;
      background := MinReal(background, smoothed);
      var detrended := MaxReal(0.0, smoothed - background);
      var threshold := cfg.spikeThreshold + cfg.speedAdaptiveFactor * speedKmh;
      if detrended >= threshold {
        consecutiveAbove := consecutiveAbove + 1;
      } else {
        consecutiveAbove := 0;
      }
      r := Result(smoothed, background, detrended, threshold, consecutiveAbove >= cfg.minConsecutiveFrames);
    }

    method Reset()
      modifies this
      ensures Now() == RESET
    {
      smoothed, background, consecutiveAbove, initialized := 0.0, 0.0, 0, false;
    }
  }

  // ----- whole runs since a reset

  function After(cfg: Config, samples: seq<Sample>): State {
    if samples == [] then RESET
    else Next(cfg, After(cfg, samples[..|samples| - 1]), samples[|samples| - 1])
  }

  /** What the update that takes sample `k` of a run returns. */
  function ReportAt(cfg: Config, samples: seq<Sample>, k: nat): Result
    requires k < |samples|
  {
    Report(cfg, After(cfg, samples[..k]), samples[k])
  }

  predicate Weights(cfg: Config) { 0.0 <= cfg.emaAlpha <= 1.0 && 0.0 <= cfg.bgAlpha <= 1.0 }

  /** Every sample in motion lies in [lo, hi]; samples at rest may be anything. */
  predicate Within(cfg: Config, samples: seq<Sample>, lo: real, hi: real) {
    forall k :: 0 <= k < |samples| && Moving(cfg, samples[k]) ==> lo <= samples[k].iss <= hi
  }

  lemma BlendIsBetween(weight: real, u: real, v: real, lo: real, hi: real)
    requires 0.0 <= weight <= 1.0 && lo <= u <= hi && lo <= v <= hi
    ensures lo <= Blend(weight, u, v) <= hi
  {
    assert weight * (u - lo) >= 0.0 && (1.0 - weight) * (v - lo) >= 0.0;
    assert weight * (hi - u) >= 0.0 && (1.0 - weight) * (hi - v) >= 0.0;
  }

  predicate Bounded(s: State, lo: real, hi: real) {
    s.initialized ==> lo <= s.background <= s.smoothed <= hi
  }

  lemma NextIsBounded(cfg: Config, s: State, sample: Sample, lo: real, hi: real)
    requires Weights(cfg) && Bounded(s, lo, hi) && (Moving(cfg, sample) ==> lo <= sample.iss <= hi)
    ensures Bounded(Next(cfg, s, sample), lo, hi)
  {
    hide Blend, Moving, Above;
    if Moving(cfg, sample) {
      var smoothed := Smoothed(cfg, s, sample.iss);
      BlendIsBetween(cfg.emaAlpha, sample.iss, if s.initialized then s.smoothed else sample.iss, lo, hi);
      BlendIsBetween(cfg.bgAlpha, if s.initialized then s.background else sample.iss, smoothed, lo, hi);
    }
  }

  /** Background, smoothed value and inputs stay ordered over every run. */
  lemma {:induction false} BackgroundStaysBelowSmoothed(cfg: Config, samples: seq<Sample>, lo: real, hi: real)
    requires Weights(cfg) && Within(cfg, samples, lo, hi)
    ensures Bounded(After(cfg, samples), lo, hi)
  {
    hide Moving, Next;
    if samples != [] {
      var before, last := samples[..|samples| - 1], samples[|samples| - 1];
      forall k | 0 <= k < |before| && Moving(cfg, before[k]) ensures lo <= before[k].iss <= hi {
        assert before[k] == samples[k];
      }
      BackgroundStaysBelowSmoothed(cfg, before, lo, hi);
      assert last == samples[|samples| - 1];
      NextIsBounded(cfg, After(cfg, before), last, lo, hi);
    }
  }

  /** No input that varies by less than the spike threshold is ever flagged. */
  lemma SmallVariationNeverFlags(cfg: Config, samples: seq<Sample>, lo: real, hi: real, k: nat)
    requires Weights(cfg) && cfg.speedFloorKmh >= 0.0 && cfg.speedAdaptiveFactor >= 0.0
    requires cfg.minConsecutiveFrames >= 1
    requires Within(cfg, samples, lo, hi) && hi - lo < cfg.spikeThreshold && k < |samples|
    ensures !ReportAt(cfg, samples, k).impact
  {
    var s, sample := After(cfg, samples[..k]), samples[k];
    if Moving(cfg, sample) {
      forall j | 0 <= j < k && Moving(cfg, samples[..k][j]) ensures lo <= samples[..k][j].iss <= hi {
        assert samples[..k][j] == samples[j];
      }
      BackgroundStaysBelowSmoothed(cfg, samples[..k], lo, hi);
      NextIsBounded(cfg, s, sample, lo, hi);
      assert Detrended(cfg, s, sample.iss) <= hi - lo;
      ThresholdAtLeastSpike(cfg, sample);
    }
  }

  lemma ThresholdAtLeastSpike(cfg: Config, sample: Sample)
    requires cfg.speedFloorKmh >= 0.0 && cfg.speedAdaptiveFactor >= 0.0 && Moving(cfg, sample)
    ensures Threshold(cfg, sample) >= cfg.spikeThreshold
  {
    assert cfg.speedAdaptiveFactor * SpeedKmh(sample) >= 0.0;
  }

  // ----- the consecutive-frame gate

  /** The last `m` samples of the run were each in motion and at or above their thresholds. */
  predicate LastAbove(cfg: Config, samples: seq<Sample>, m: nat)
    requires m <= |samples|
  {
    forall k :: |samples| - m <= k < |samples| ==> Above(cfg, After(cfg, samples[..k]), samples[k])
  }

  lemma {:induction false} CountIsStreak(cfg: Config, samples: seq<Sample>, m: nat)
    ensures After(cfg, samples).consecutive >= m <==> m <= |samples| && LastAbove(cfg, samples, m)
  {
    var n := |samples|;
    if n > 0 && m > 0 {
      var before, last := samples[..n - 1], samples[n - 1];
      assert Above(cfg, After(cfg, before), last) ==> Moving(cfg, last);
      hide Above, Moving, Smoothed, Background;
      CountIsStreak(cfg, before, m - 1);
      CountIsStreak(cfg, before, 0);
      if m <= n {
        assert forall k :: 0 <= k < n - 1 ==> before[..k] == samples[..k] && before[k] == samples[k];
        assert LastAbove(cfg, samples, m) <==>
               LastAbove(cfg, before, m - 1) && Above(cfg, After(cfg, before), last);
      }
    } else if n > 0 {
      CountIsStreak(cfg, samples[..n - 1], 0);
    }
  }

  /** An impact is flagged exactly when the last `minConsecutiveFrames` samples all cleared the gate. */
  lemma ImpactIffStreak(cfg: Config, samples: seq<Sample>)
    requires cfg.minConsecutiveFrames >= 1 && samples != []
    ensures ReportAt(cfg, samples, |samples| - 1).impact <==>
            cfg.minConsecutiveFrames <= |samples| && LastAbove(cfg, samples, cfg.minConsecutiveFrames)
  {
    hide Above, Detrended, Threshold;
    CountIsStreak(cfg, samples, cfg.minConsecutiveFrames);
  }

  // ----- the scores of a jolt in closed form

  function Power(x: real, k: nat): real { if k == 0 then 1.0 else x * Power(x, k - 1) }

  /** (a * r^k - (1 - beta) * beta^k) / (beta - r), with the powers given. */
  function Spaced(a: real, beta: real, rk: real, bk: real): real
    requires beta != 1.0 - a
  {
    (a * rk - (1.0 - beta) * bk) / (beta - (1.0 - a))
  }

  /** By what factor the score of an upward jolt has changed `k` frames later, before it is clamped at 0. */
  function Fade(a: real, beta: real, k: nat): real {
    if beta != 1.0 - a then Spaced(a, beta, Power(1.0 - a, k), Power(beta, k))
    else if k == 0 then 1.0
    else Power(beta, k) - k as real * a * Power(beta, k - 1)
  }

  /** The same factor for a jolt of either sign: a downward one shows nothing at first and rebounds. */
  function Factor(a: real, beta: real, s: real, k: nat): real {
    if s >= 0.0 then Fade(a, beta, k) else Fade(a, beta, k) - Power(beta, k)
  }

  function Score(a: real, beta: real, s: real, factor: real): real { a * beta * s * factor }

  /** The score that a jolt of height `s` leaves `k` frames later, from the weights alone. */
  function Leftover(cfg: Config, s: real, k: nat): real {
    MaxReal(0.0, Score(cfg.emaAlpha, cfg.bgAlpha, s, Factor(cfg.emaAlpha, cfg.bgAlpha, s, k)))
  }

  lemma SpacedIs(a: real, beta: real, rk: real, bk: real, q: real)
    requires beta != 1.0 - a && (beta - (1.0 - a)) * q == a * rk - (1.0 - beta) * bk
    ensures Spaced(a, beta, rk, bk) == q
  {
    var n, d := a * rk - (1.0 - beta) * bk, beta - (1.0 - a);
    assert d * (n / d) == n;
    Cancel(d, n / d, q);
  }

  lemma SpacedTimes(a: real, beta: real, rk: real, bk: real)
    requires beta != 1.0 - a
    ensures (beta - (1.0 - a)) * Spaced(a, beta, rk, bk) == a * rk - (1.0 - beta) * bk
  {}

  lemma SpacedStep(a: real, beta: real, rk: real, bk: real, rNext: real, bNext: real)
    requires beta != 1.0 - a && rNext == (1.0 - a) * rk && bNext == beta * bk
    ensures Spaced(a, beta, rNext, bNext) == beta * Spaced(a, beta, rk, bk) - a * rk
  {
    SpacedTimes(a, beta, rk, bk);
    var fade := Spaced(a, beta, rk, bk);
    hide Spaced;
    FadeProducts(a, beta, beta - (1.0 - a), rk, bk, fade, rNext, bNext);
    SpacedIs(a, beta, rNext, bNext, beta * fade - a * rk);
  }

  lemma FadeProducts(a: real, beta: real, d: real, rk: real, bk: real, fade: real, rNext: real, bNext: real)
    requires d == beta - (1.0 - a) && d * fade == a * rk - (1.0 - beta) * bk
    requires rNext == (1.0 - a) * rk && bNext == beta * bk
    ensures d * (beta * fade - a * rk) == a * rNext - (1.0 - beta) * bNext
  {
    assert d * (beta * fade) == beta * (a * rk - (1.0 - beta) * bk);
    assert d * (a * rk) == beta * (a * rk) - (1.0 - a) * (a * rk);
  }

  lemma EqualWeightsStep(a: real, beta: real, x: real, bk: real, before: real)
    requires bk == beta * before
    ensures beta * bk - (x + 1.0) * a * bk == beta * (bk - x * a * before) - a * bk
  {
    assert x * a * bk == x * a * (beta * before);
  }

  lemma FadeStart(a: real, beta: real)
    ensures Fade(a, beta, 0) == 1.0
  {
    if beta != 1.0 - a {
      SpacedIs(a, beta, 1.0, 1.0, 1.0);
    }
    hide Spaced;
  }

  lemma FadeStep(a: real, beta: real, k: nat)
    ensures Fade(a, beta, k + 1) == beta * Fade(a, beta, k) - a * Power(1.0 - a, k)
  {
    hide Spaced;
    if beta != 1.0 - a {
      SpacedStep(a, beta, Power(1.0 - a, k), Power(beta, k), Power(1.0 - a, k + 1), Power(beta, k + 1));
    } else if k > 0 {
      assert (k + 1) as real == k as real + 1.0;
      EqualWeightsStep(a, beta, k as real, Power(beta, k), Power(beta, k - 1));
    }
  }

  lemma FactorStep(a: real, beta: real, s: real, k: nat)
    ensures Factor(a, beta, s, 0) == if s >= 0.0 then 1.0 else 0.0
    ensures Factor(a, beta, s, k + 1) == beta * Factor(a, beta, s, k) - a * Power(1.0 - a, k)
  {
    FadeStart(a, beta);
    FadeStep(a, beta, k);
    hide Fade;
    Spread(beta, Fade(a, beta, k), Power(beta, k));
  }

  lemma Spread(beta: real, u: real, v: real)
    ensures beta * (u - v) == beta * u - beta * v
  {}

  lemma {:induction false} PowerNonnegative(x: real, k: nat)
    requires x >= 0.0
    ensures Power(x, k) >= 0.0
  {
    if k > 0 {
      PowerNonnegative(x, k - 1);
      NonnegativeProduct(x, Power(x, k - 1), Power(x, k));
    }
  }

  /** How far the smoothed value still is above the baseline. */
  function Rise(a: real, s: real, k: nat): real { a * s * Power(1.0 - a, k) }

  /** By how much the smoothed value drops in the next frame. */
  function Drop(a: real, s: real, k: nat): real { a * Rise(a, s, k) }

  lemma RiseStep(a: real, s: real, k: nat)
    ensures Rise(a, s, 0) == a * s
    ensures Rise(a, s, k + 1) == (1.0 - a) * Rise(a, s, k)
  {}

  lemma DropHasTheSign(a: real, s: real, k: nat)
    requires 0.0 <= a <= 1.0
    ensures s >= 0.0 ==> Drop(a, s, k) >= 0.0
    ensures s <= 0.0 ==> Drop(a, s, k) <= 0.0
  {
    var p := Power(1.0 - a, k);
    PowerNonnegative(1.0 - a, k);
    if s >= 0.0 {
      NonnegativeProduct(a, s, a * s);
      NonnegativeProduct(a * s, p, Rise(a, s, k));
      NonnegativeProduct(a, Rise(a, s, k), Drop(a, s, k));
    } else {
      NonnegativeProduct(a, -s, -(a * s));
      NonnegativeProduct(-(a * s), p, -Rise(a, s, k));
      NonnegativeProduct(a, -Rise(a, s, k), -Drop(a, s, k));
    }
  }

  lemma ScoreRecurs(a: real, beta: real, s: real, k: nat)
    ensures Score(a, beta, s, Factor(a, beta, s, k + 1))
            == beta * (Score(a, beta, s, Factor(a, beta, s, k)) - Drop(a, s, k))
  {
    FactorStep(a, beta, s, k);
    hide Factor, Power;
    ScoreOfStep(a, beta, s, Factor(a, beta, s, k), Power(1.0 - a, k), Factor(a, beta, s, k + 1));
  }

  lemma ScoreOfStep(a: real, beta: real, s: real, factor: real, power: real, next: real)
    requires next == beta * factor - a * power
    ensures Score(a, beta, s, next) == beta * (Score(a, beta, s, factor) - a * (a * s * power))
  {
    assert a * beta * s * next == a * beta * s * (beta * factor - a * power);
  }

  /** What is left of a score once the smoothed value has dropped, clamped at 0. */
  function Faded(beta: real, score: real, drop: real): real { MaxReal(0.0, beta * (score - drop)) }

  /** Clamping an upward jolt's score early or late makes no difference. */
  lemma ClampAfterwards(beta: real, e: real, drop: real, next: real, score: real)
    requires beta >= 0.0 && drop >= 0.0 && next == beta * (e - drop) && score == MaxReal(0.0, e)
    ensures Faded(beta, score, drop) == MaxReal(0.0, next)
  {
    if e < 0.0 {
      NonnegativeProduct(beta, drop, beta * drop);
      NonnegativeProduct(beta, drop - e, -next);
      assert beta * (0.0 - drop) == -(beta * drop);
    }
  }

  /** A downward jolt's score is never negative, so it is not clamped at all. */
  lemma {:induction false} DipScores(a: real, beta: real, s: real, k: nat)
    requires 0.0 <= a <= 1.0 && 0.0 <= beta <= 1.0 && s < 0.0
    ensures Score(a, beta, s, Factor(a, beta, s, k)) >= 0.0
  {
    if k == 0 {
      FactorStep(a, beta, s, 0);
      hide Factor;
    } else {
      hide Score, Factor, Drop;
      DipScores(a, beta, s, k - 1);
      ScoreRecurs(a, beta, s, k - 1);
      DropHasTheSign(a, s, k - 1);
      var e, drop := Score(a, beta, s, Factor(a, beta, s, k - 1)), Drop(a, s, k - 1);
      NonnegativeProduct(beta, e - drop, Score(a, beta, s, Factor(a, beta, s, k)));
    }
  }

  lemma LeftoverRecurs(cfg: Config, s: real, k: nat)
    requires Weights(cfg)
    ensures Leftover(cfg, s, k + 1) == Faded(cfg.bgAlpha, Leftover(cfg, s, k), Drop(cfg.emaAlpha, s, k))
  {
    hide Score, Factor, Drop, Faded;
    var a, beta := cfg.emaAlpha, cfg.bgAlpha;
    var e, next := Score(a, beta, s, Factor(a, beta, s, k)), Score(a, beta, s, Factor(a, beta, s, k + 1));
    ScoreRecurs(a, beta, s, k);
    if s < 0.0 {
      DipScores(a, beta, s, k);
      DipScores(a, beta, s, k + 1);
      Unclamped(beta, e, Drop(a, s, k), next);
    } else {
      DropHasTheSign(a, s, k);
      ClampAfterwards(beta, e, Drop(a, s, k), next, Leftover(cfg, s, k));
    }
  }

  lemma Unclamped(beta: real, e: real, drop: real, next: real)
    requires next == beta * (e - drop)
    ensures Faded(beta, e, drop) == MaxReal(0.0, next)
  {}

  lemma FadedIsLess(beta: real, score: real, drop: real)
    requires 0.0 <= beta <= 1.0 && score >= 0.0 && drop >= 0.0
    ensures Faded(beta, score, drop) <= score
  {
    NonnegativeProduct(beta, drop, beta * drop);
    NonnegativeProduct(1.0 - beta, score, score - beta * score);
    assert beta * (score - drop) == beta * score - beta * drop;
  }

  /** What an upward jolt leaves behind shrinks from frame to frame. */
  lemma {:induction false} LeftoverDecays(cfg: Config, s: real, k: nat, n: nat)
    requires Weights(cfg) && s >= 0.0 && k <= n
    ensures Leftover(cfg, s, n) <= Leftover(cfg, s, k)
  {
    if k < n {
      assert Leftover(cfg, s, n - 1) >= 0.0;
      hide Leftover, Faded, Drop;
      LeftoverDecays(cfg, s, k, n - 1);
      LeftoverRecurs(cfg, s, n - 1);
      DropHasTheSign(cfg.emaAlpha, s, n - 1);
      FadedIsLess(cfg.bgAlpha, Leftover(cfg, s, n - 1), Drop(cfg.emaAlpha, s, n - 1));
    }
  }

  // ----- the filter after a jolt

  lemma BlendGap(weight: real, u: real, v: real)
    ensures Blend(weight, u, v) - u == (1.0 - weight) * (v - u)
    ensures v - Blend(weight, u, v) == weight * (v - u)
  {}

  predicate Settled(t: State, b: real) { t.initialized && t.smoothed == b && t.background == b }

  /** `k` frames in motion after a jolt of height `s` over the baseline `b`. */
  predicate Fading(cfg: Config, t: State, b: real, s: real, k: nat) {
    t.initialized && t.smoothed - b == Rise(cfg.emaAlpha, s, k) && t.smoothed - t.background == Leftover(cfg, s, k)
  }

  /** In motion, the gap between smoothed value and background becomes the detrended score. */
  lemma GapIsDetrended(cfg: Config, t: State, sample: Sample)
    requires Moving(cfg, sample)
    ensures var u := Next(cfg, t, sample);
            && u.initialized && u.smoothed == Smoothed(cfg, t, sample.iss)
            && u.smoothed - u.background == Detrended(cfg, t, sample.iss)
  {
    hide Moving, Above, Blend;
  }

  lemma JoltFades(cfg: Config, t: State, b: real, s: real, sample: Sample)
    requires Weights(cfg) && Settled(t, b) && Moving(cfg, sample) && sample.iss == b + s
    ensures Detrended(cfg, t, sample.iss) == Leftover(cfg, s, 0)
    ensures Fading(cfg, Next(cfg, t, sample), b, s, 0)
  {
    JoltItself(cfg, t, b, s);
    GapIsDetrended(cfg, t, sample);
    RiseStep(cfg.emaAlpha, s, 0);
    assert Smoothed(cfg, t, b + s) - b == cfg.emaAlpha * s;
    hide Next, Moving, Detrended, Leftover, Rise, Smoothed;
  }

  lemma FirstGap(a: real, beta: real, b: real, s: real, sm: real, blend: real)
    requires sm == Blend(a, b + s, b) && blend == Blend(beta, b, sm)
    ensures sm - blend == Score(a, beta, s, 1.0)
  {
    assert sm - b == a * s;
    BlendGap(beta, b, sm);
    assert sm - blend == beta * (a * s);
    hide Blend;
  }

  lemma ScoreSign(a: real, beta: real, s: real)
    requires a >= 0.0 && beta >= 0.0 && s < 0.0
    ensures Score(a, beta, s, 0.0) == 0.0 && Score(a, beta, s, 1.0) <= 0.0
  {
    NonnegativeProduct(a, beta, a * beta);
    NonnegativeProduct(a * beta, -s, -(a * beta * s));
  }

  lemma LeftoverOfJolt(cfg: Config, s: real)
    requires Weights(cfg)
    ensures Leftover(cfg, s, 0) == MaxReal(0.0, Score(cfg.emaAlpha, cfg.bgAlpha, s, 1.0))
  {
    FactorStep(cfg.emaAlpha, cfg.bgAlpha, s, 0);
    hide Factor, Score;
    if s < 0.0 {
      ScoreSign(cfg.emaAlpha, cfg.bgAlpha, s);
    }
  }

  lemma JoltItself(cfg: Config, t: State, b: real, s: real)
    requires Weights(cfg) && Settled(t, b)
    ensures Detrended(cfg, t, b + s) == Leftover(cfg, s, 0)
  {
    hide Blend, Score, Leftover;
    var sm := Blend(cfg.emaAlpha, b + s, b);
    FirstGap(cfg.emaAlpha, cfg.bgAlpha, b, s, sm, Blend(cfg.bgAlpha, b, sm));
    LeftoverOfJolt(cfg, s);
  }

  lemma NextScore(cfg: Config, t: State, b: real, score: real, drop: real)
    requires t.initialized && score == t.smoothed - t.background && drop == cfg.emaAlpha * (t.smoothed - b)
    ensures Detrended(cfg, t, b) == Faded(cfg.bgAlpha, score, drop)
  {
    var sm := Smoothed(cfg, t, b);
    var blend := Blend(cfg.bgAlpha, t.background, sm);
    BlendGap(cfg.emaAlpha, b, t.smoothed);
    BlendGap(cfg.bgAlpha, t.background, sm);
    assert sm - blend == cfg.bgAlpha * (sm - t.background);
    assert sm - t.background == score - drop;
    hide Blend;
  }

  lemma DropOf(cfg: Config, t: State, b: real, s: real, k: nat)
    requires Fading(cfg, t, b, s, k)
    ensures Drop(cfg.emaAlpha, s, k) == cfg.emaAlpha * (t.smoothed - b)
    ensures Smoothed(cfg, t, b) - b == Rise(cfg.emaAlpha, s, k + 1)
  {
    RiseStep(cfg.emaAlpha, s, k);
    BlendGap(cfg.emaAlpha, b, t.smoothed);
    hide Rise, Leftover, Blend;
  }

  lemma FadingMoves(cfg: Config, t: State, b: real, s: real, k: nat, sample: Sample)
    requires Weights(cfg) && Fading(cfg, t, b, s, k) && Moving(cfg, sample) && sample.iss == b
    ensures Detrended(cfg, t, b) == Leftover(cfg, s, k + 1)
    ensures Fading(cfg, Next(cfg, t, sample), b, s, k + 1)
  {
    hide Next, Moving, Detrended, Leftover, Rise, Smoothed, Drop, Faded;
    DropOf(cfg, t, b, s, k);
    NextScore(cfg, t, b, Leftover(cfg, s, k), Drop(cfg.emaAlpha, s, k));
    LeftoverRecurs(cfg, s, k);
    GapIsDetrended(cfg, t, sample);
  }

  // ----- a jolt in any run

  /** Every sample in motion is at the baseline; samples at rest may be anything. */
  predicate Baseline(cfg: Config, samples: seq<Sample>, b: real) {
    forall k :: 0 <= k < |samples| && Moving(cfg, samples[k]) ==> samples[k].iss == b
  }

  function Motions(cfg: Config, samples: seq<Sample>): nat {
    if samples == [] then 0
    else Motions(cfg, samples[..|samples| - 1]) + if Moving(cfg, samples[|samples| - 1]) then 1 else 0
  }

  lemma BlendSame(weight: real, v: real)
    ensures Blend(weight, v, v) == v
  {}

  lemma BaselineStep(cfg: Config, t: State, b: real, sample: Sample)
    requires (t.initialized ==> Settled(t, b)) && (Moving(cfg, sample) ==> sample.iss == b)
    ensures Moving(cfg, sample) ==> Detrended(cfg, t, sample.iss) == 0.0 && Settled(Next(cfg, t, sample), b)
    ensures !Moving(cfg, sample) ==> Next(cfg, t, sample).(consecutive := 0) == t.(consecutive := 0)
  {
    BlendSame(cfg.emaAlpha, b);
    BlendSame(cfg.bgAlpha, b);
    hide Blend, Moving, Above;
  }

  /** The baseline settles the filter with its first frame in motion, and keeps it settled. */
  lemma {:induction false} BaselineIsSettled(cfg: Config, samples: seq<Sample>, b: real)
    requires Baseline(cfg, samples, b)
    ensures var t := After(cfg, samples);
            if Motions(cfg, samples) == 0 then !t.initialized else Settled(t, b)
  {
    hide Next, Moving, Detrended;
    if samples != [] {
      var before, last := samples[..|samples| - 1], samples[|samples| - 1];
      BaselineIsSettled(cfg, before, b);
      BaselineStep(cfg, After(cfg, before), b, last);
    }
  }

  /** A baseline, one jolt, and the baseline again. */
  function Jolted(steady: seq<Sample>, jolt: Sample, quiet: seq<Sample>): seq<Sample> { steady + [jolt] + quiet }

  /** What makes such a run: the filter is settled before the jolt, and the jolt is in motion. */
  predicate IsJolt(cfg: Config, steady: seq<Sample>, jolt: Sample, quiet: seq<Sample>, b: real, s: real) {
    && Baseline(cfg, steady, b) && Motions(cfg, steady) > 0 && Baseline(cfg, quiet, b)
    && Moving(cfg, jolt) && jolt.iss == b + s
  }

  lemma {:induction false} RunFades(
    cfg: Config, steady: seq<Sample>, jolt: Sample, quiet: seq<Sample>, b: real, s: real, j: nat)
    requires Weights(cfg) && IsJolt(cfg, steady, jolt, quiet, b, s) && j <= |quiet|
    ensures Fading(cfg, After(cfg, Jolted(steady, jolt, quiet)[..|steady| + 1 + j]), b, s, Motions(cfg, quiet[..j]))
  {
    hide Next, Moving, Fading;
    var run, n := Jolted(steady, jolt, quiet), |steady|;
    if j == 0 {
      assert run[..n + 1] == steady + [jolt] && (steady + [jolt])[..n] == steady;
      BaselineIsSettled(cfg, steady, b);
      JoltFades(cfg, After(cfg, steady), b, s, jolt);
    } else {
      RunFades(cfg, steady, jolt, quiet, b, s, j - 1);
      assert run[..n + 1 + j][..n + j] == run[..n + j] && run[n + j] == quiet[j - 1];
      assert quiet[..j][..j - 1] == quiet[..j - 1];
      if Moving(cfg, quiet[j - 1]) {
        FadingMoves(cfg, After(cfg, run[..n + j]), b, s, Motions(cfg, quiet[..j - 1]), quiet[j - 1]);
      } else {
        FadingRests(cfg, After(cfg, run[..n + j]), b, s, Motions(cfg, quiet[..j - 1]), quiet[j - 1]);
      }
    }
  }

  lemma FadingRests(cfg: Config, t: State, b: real, s: real, k: nat, sample: Sample)
    requires Fading(cfg, t, b, s, k) && !Moving(cfg, sample)
    ensures Fading(cfg, Next(cfg, t, sample), b, s, k)
  {
    hide Moving, Rise, Leftover;
  }

  /** The score of frame `k` of the run: none before the jolt, then what the frames in motion have left of it. */
  function RunScore(cfg: Config, steady: seq<Sample>, quiet: seq<Sample>, s: real, k: nat): real
    requires k <= |steady| + |quiet|
  {
    if k < |steady| then 0.0 else Leftover(cfg, s, Motions(cfg, quiet[..k - |steady|]))
  }

  /** At each speed of its own, a frame of the run clears the gate exactly when that score reaches its threshold. */
  lemma JoltedFrameIsAboveIff(
    cfg: Config, steady: seq<Sample>, jolt: Sample, quiet: seq<Sample>, b: real, s: real, k: nat)
    requires Weights(cfg) && IsJolt(cfg, steady, jolt, quiet, b, s) && k < |Jolted(steady, jolt, quiet)|
    ensures var run := Jolted(steady, jolt, quiet);
            Above(cfg, After(cfg, run[..k]), run[k]) <==>
            Moving(cfg, run[k]) && RunScore(cfg, steady, quiet, s, k) >= Threshold(cfg, run[k])
  {
    var run, n := Jolted(steady, jolt, quiet), |steady|;
    if k < n {
      assert run[..k] == steady[..k] && run[k] == steady[k];
      hide Next, Moving, Threshold, Detrended, Leftover;
      BaselineIsSettled(cfg, steady[..k], b);
      BaselineStep(cfg, After(cfg, steady[..k]), b, steady[k]);
    } else if k == n {
      assert run[..n] == steady && run[n] == jolt;
      hide Next, Moving, Threshold, Detrended, Leftover, Fading;
      BaselineIsSettled(cfg, steady, b);
      JoltFades(cfg, After(cfg, steady), b, s, jolt);
    } else {
      var j := k - n - 1;
      hide Next, Moving, Threshold, Detrended, Leftover, Fading;
      RunFades(cfg, steady, jolt, quiet, b, s, j);
      assert run[k] == quiet[j] && quiet[..j + 1][..j] == quiet[..j];
      if Moving(cfg, quiet[j]) {
        FadingMoves(cfg, After(cfg, run[..k]), b, s, Motions(cfg, quiet[..j]), quiet[j]);
      }
    }
  }

  /**
   * For every run of a baseline, one jolt up or down, and the baseline again, at any speeds and
   * with any stops: an impact is flagged at its end exactly when the last `minConsecutiveFrames`
   * frames were in motion and their closed-form scores reached their own thresholds.
   */
  lemma JoltedRunFlagsIff(
    cfg: Config, steady: seq<Sample>, jolt: Sample, quiet: seq<Sample>, b: real, s: real)
    requires Weights(cfg) && cfg.minConsecutiveFrames >= 1 && IsJolt(cfg, steady, jolt, quiet, b, s)
    ensures var run, m := Jolted(steady, jolt, quiet), cfg.minConsecutiveFrames;
            ReportAt(cfg, run, |run| - 1).impact <==>
            && m <= |run|
            && forall k :: |run| - m <= k < |run| ==>
                 Moving(cfg, run[k]) && RunScore(cfg, steady, quiet, s, k) >= Threshold(cfg, run[k])
  {
    var run := Jolted(steady, jolt, quiet);
    assert |run| == |steady| + 1 + |quiet|;
    hide Moving, Threshold, Above, IsJolt, RunScore, Report, Jolted;
    forall k: nat | k < |run|
      ensures Above(cfg, After(cfg, run[..k]), run[k]) <==>
              Moving(cfg, run[k]) && RunScore(cfg, steady, quiet, s, k) >= Threshold(cfg, run[k])
    {
      JoltedFrameIsAboveIff(cfg, steady, jolt, quiet, b, s, k);
    }
    ImpactIffStreak(cfg, run);
  }

  // ----- one speed and an upward jolt

  /**
   * The state `n` frames after a jolt of height `s` over a settled baseline `b`, all at one speed:
   * the jolt itself, then `n` frames of the baseline.
   */
  function AfterJolt(cfg: Config, b: real, s: real, speedMs: real, n: nat): State {
    if n == 0 then Next(cfg, State(b, b, 0, true), Sample(b + s, speedMs))
    else Next(cfg, AfterJolt(cfg, b, s, speedMs, n - 1), Sample(b, speedMs))
  }

  lemma OnlySpeedMatters(cfg: Config, iss: real, other: real, speedMs: real)
    ensures Threshold(cfg, Sample(iss, speedMs)) == Threshold(cfg, Sample(other, speedMs))
    ensures Moving(cfg, Sample(iss, speedMs)) == Moving(cfg, Sample(other, speedMs))
  {
    assert SpeedKmh(Sample(iss, speedMs)) == SpeedKmh(Sample(other, speedMs));
    hide SpeedKmh;
  }

  /** The detrended score `k` frames after the jolt, the jolt's own at 0. */
  function JoltScore(cfg: Config, b: real, s: real, speedMs: real, k: nat): real {
    if k == 0 then Detrended(cfg, State(b, b, 0, true), b + s)
    else Detrended(cfg, AfterJolt(cfg, b, s, speedMs, k - 1), b)
  }

  lemma {:induction false} AfterJoltFades(cfg: Config, b: real, s: real, speedMs: real, n: nat)
    requires Weights(cfg) && Moving(cfg, Sample(b, speedMs))
    ensures Fading(cfg, AfterJolt(cfg, b, s, speedMs, n), b, s, n)
  {
    OnlySpeedMatters(cfg, b + s, b, speedMs);
    hide Next, Moving, Fading;
    if n == 0 {
      JoltFades(cfg, State(b, b, 0, true), b, s, Sample(b + s, speedMs));
    } else {
      AfterJoltFades(cfg, b, s, speedMs, n - 1);
      FadingMoves(cfg, AfterJolt(cfg, b, s, speedMs, n - 1), b, s, n - 1, Sample(b, speedMs));
    }
  }

  /** The score of a jolt after any number of frames depends on the weights and its height alone. */
  lemma JoltScoreIsLeftover(cfg: Config, b: real, s: real, speedMs: real, k: nat)
    requires Weights(cfg) && Moving(cfg, Sample(b, speedMs))
    ensures JoltScore(cfg, b, s, speedMs, k) == Leftover(cfg, s, k)
  {
    hide Moving, Fading, Leftover, Detrended, AfterJolt;
    if k == 0 {
      JoltItself(cfg, State(b, b, 0, true), b, s);
    } else {
      AfterJoltFades(cfg, b, s, speedMs, k - 1);
      FadingMoves(cfg, AfterJolt(cfg, b, s, speedMs, k - 1), b, s, k - 1, Sample(b, speedMs));
    }
  }

  /** The count goes up by one each frame as long as the score is high enough, and never rises again. */
  lemma {:induction false} JoltCount(cfg: Config, b: real, s: real, speedMs: real, n: nat)
    requires Weights(cfg) && s >= 0.0 && Moving(cfg, Sample(b, speedMs))
    ensures AfterJolt(cfg, b, s, speedMs, n).consecutive ==
            if Leftover(cfg, s, n) >= Threshold(cfg, Sample(b, speedMs)) then n + 1 else 0
  {
    OnlySpeedMatters(cfg, b + s, b, speedMs);
    JoltScoreIsLeftover(cfg, b, s, speedMs, n);
    hide Detrended, Smoothed, Background, Moving, Threshold, Leftover;
    if n > 0 {
      JoltCount(cfg, b, s, speedMs, n - 1);
      LeftoverDecays(cfg, s, n - 1, n);
    }
  }

  /**
   * At one speed, for any gate of `m` frames, an upward jolt of a single frame over a settled
   * baseline is flagged in some frame exactly when what it leaves in the `m`-th frame, which the
   * weights decide, reaches the threshold.
   */
  lemma JoltFlagsIff(cfg: Config, b: real, s: real, speedMs: real, m: nat)
    requires Weights(cfg) && m >= 1 && s >= 0.0 && Moving(cfg, Sample(b, speedMs))
    ensures (exists n: nat :: AfterJolt(cfg, b, s, speedMs, n).consecutive >= m)
            <==> Leftover(cfg, s, m - 1) >= Threshold(cfg, Sample(b, speedMs))
  {
    hide AfterJolt, Threshold, Moving, Leftover;
    JoltCount(cfg, b, s, speedMs, m - 1);
    forall n: nat | AfterJolt(cfg, b, s, speedMs, n).consecutive >= m
      ensures Leftover(cfg, s, m - 1) >= Threshold(cfg, Sample(b, speedMs))
    {
      JoltCount(cfg, b, s, speedMs, n);
      LeftoverDecays(cfg, s, m - 1, n);
    }
  }

  lemma LeftoverOfNextFrame(cfg: Config, s: real)
    requires s >= 0.0
    ensures Leftover(cfg, s, 1) == MaxReal(0.0, Score(cfg.emaAlpha, cfg.bgAlpha, s, cfg.bgAlpha - cfg.emaAlpha))
  {
    FactorStep(cfg.emaAlpha, cfg.bgAlpha, s, 0);
    assert Power(1.0 - cfg.emaAlpha, 0) == 1.0;
    hide Factor, Score, Power;
  }

  /** For the shipped gate of two frames: alpha * beta * s * (beta - alpha) has to reach the threshold. */
  lemma JoltPassesTwoFrameGateIff(cfg: Config, b: real, s: real, speedMs: real)
    requires Weights(cfg) && cfg.minConsecutiveFrames == 2 && s >= 0.0
    requires Moving(cfg, Sample(b, speedMs)) && Threshold(cfg, Sample(b, speedMs)) > 0.0
    ensures (exists n: nat :: AfterJolt(cfg, b, s, speedMs, n).consecutive >= cfg.minConsecutiveFrames)
            <==> Score(cfg.emaAlpha, cfg.bgAlpha, s, cfg.bgAlpha - cfg.emaAlpha) >= Threshold(cfg, Sample(b, speedMs))
    ensures AfterJolt(cfg, b, s, speedMs, 1).consecutive >= cfg.minConsecutiveFrames
            <==> Score(cfg.emaAlpha, cfg.bgAlpha, s, cfg.bgAlpha - cfg.emaAlpha) >= Threshold(cfg, Sample(b, speedMs))
  {
    hide AfterJolt, Threshold, Moving, Leftover, Score;
    JoltFlagsIff(cfg, b, s, speedMs, 2);
    JoltCount(cfg, b, s, speedMs, 1);
    LeftoverOfNextFrame(cfg, s);
  }

  // ----- the runs these jolts stand for

  predicate AllAre(samples: seq<Sample>, sample: Sample) {
    forall k :: 0 <= k < |samples| ==> samples[k] == sample
  }

  /** One frame at the baseline settles a filter that has just been reset, and more keep it there. */
  lemma {:induction false} BaselineSettles(cfg: Config, samples: seq<Sample>, b: real, speedMs: real)
    requires samples != [] && AllAre(samples, Sample(b, speedMs))
    requires Moving(cfg, Sample(b, speedMs)) && Threshold(cfg, Sample(b, speedMs)) > 0.0
    ensures After(cfg, samples) == State(b, b, 0, true)
  {
    var before, last := samples[..|samples| - 1], samples[|samples| - 1];
    assert last == Sample(b, speedMs);
    BlendSame(cfg.emaAlpha, b);
    BlendSame(cfg.bgAlpha, b);
    hide Blend, Moving, Threshold;
    if before != [] {
      BaselineSettles(cfg, before, b, speedMs);
    }
  }

  /** A run from reset: the baseline, one jolt, and the baseline again. */
  lemma {:induction false} JoltInARun(
    cfg: Config, steady: seq<Sample>, quiet: seq<Sample>, b: real, s: real, speedMs: real)
    requires steady != [] && AllAre(steady, Sample(b, speedMs)) && AllAre(quiet, Sample(b, speedMs))
    requires Moving(cfg, Sample(b, speedMs)) && Threshold(cfg, Sample(b, speedMs)) > 0.0
    ensures After(cfg, steady + [Sample(b + s, speedMs)] + quiet) == AfterJolt(cfg, b, s, speedMs, |quiet|)
    decreases |quiet|
  {
    hide Next, Moving, Threshold;
    var jolted := steady + [Sample(b + s, speedMs)];
    if quiet == [] {
      BaselineSettles(cfg, steady, b, speedMs);
      assert jolted + quiet == jolted && jolted[..|jolted| - 1] == steady;
    } else {
      var n := |quiet| - 1;
      JoltInARun(cfg, steady, quiet[..n], b, s, speedMs);
      assert (jolted + quiet)[..|jolted| + n] == jolted + quiet[..n];
    }
  }

  /** With the shipped settings one full-scale frame at 10 km/h is flagged as an impact in the next. */
  lemma OneJoltIsFlagged()
    ensures AfterJolt(DEFAULTS, 0.0, 1.0, 10.0 / 3.6, 1).consecutive >= DEFAULTS.minConsecutiveFrames
  {
    hide AfterJolt;
    JoltPassesTwoFrameGateIff(DEFAULTS, 0.0, 1.0, 10.0 / 3.6);
  }

  /** A jolt that would not be flagged at the speed it comes at is, when the vehicle slows down after it. */
  lemma SlowingDownFlagsJolt(cfg: Config, run: seq<Sample>)
    requires cfg == DEFAULTS
    requires run == [Sample(0.0, 13.0 / 3.6), Sample(0.5, 13.0 / 3.6), Sample(0.0, 12.0 / 3.6)]
    ensures Leftover(cfg, 0.5, 1) < Threshold(cfg, run[1])
    ensures ReportAt(cfg, run, 2).impact
  {
    RunOfThree(cfg, run, 0.0, 0.5);
    LeftoverOfNextFrame(cfg, 0.5);
    LeftoverOfJolt(cfg, 0.5);
    hide Leftover, ReportAt;
  }

  /** A dip is flagged too: the background falls with the smoothed value and recovers more slowly. */
  lemma DipFlags(cfg: Config, run: seq<Sample>)
    requires cfg == DEFAULTS && run == [Sample(1.0, 10.0 / 3.6), Sample(0.0, 10.0 / 3.6), Sample(1.0, 10.0 / 3.6),
                                        Sample(1.0, 10.0 / 3.6)]
    ensures ReportAt(cfg, run, 3).impact
  {
    RunOfFour(cfg, run, 1.0, -1.0);
    DipLeftovers(cfg);
    hide Leftover, ReportAt;
  }

  lemma DipLeftovers(cfg: Config)
    requires cfg == DEFAULTS
    ensures Leftover(cfg, -1.0, 1) > 0.15 && Leftover(cfg, -1.0, 2) > 0.15
  {
    var a, beta := cfg.emaAlpha, cfg.bgAlpha;
    FactorStep(a, beta, -1.0, 0);
    FactorStep(a, beta, -1.0, 1);
    assert Power(1.0 - a, 0) == 1.0 && Power(1.0 - a, 1) == 1.0 - a;
    hide Factor, Power;
    assert Factor(a, beta, -1.0, 1) == -a;
    assert Factor(a, beta, -1.0, 2) == beta * -a - a * (1.0 - a);
  }

  lemma RunOfThree(cfg: Config, run: seq<Sample>, b: real, s: real)
    requires Weights(cfg) && cfg.minConsecutiveFrames == 2 && |run| == 3
    requires forall k :: 0 <= k < 3 ==> Moving(cfg, run[k])
    requires run[0].iss == run[2].iss == b && run[1].iss == b + s
    ensures ReportAt(cfg, run, 2).impact <==>
            Leftover(cfg, s, 0) >= Threshold(cfg, run[1]) && Leftover(cfg, s, 1) >= Threshold(cfg, run[2])
  {
    var steady, quiet := run[..1], run[2..];
    hide Moving, Threshold, Leftover, ReportAt;
    assert Jolted(steady, run[1], quiet) == run;
    MotionsOfFirst(cfg, steady);
    MotionsOfFirst(cfg, quiet);
    JoltedRunFlagsIff(cfg, steady, run[1], quiet, b, s);
    assert RunScore(cfg, steady, quiet, s, 1) == Leftover(cfg, s, 0);
    assert RunScore(cfg, steady, quiet, s, 2) == Leftover(cfg, s, 1);
  }

  lemma RunOfFour(cfg: Config, run: seq<Sample>, b: real, s: real)
    requires Weights(cfg) && cfg.minConsecutiveFrames == 2 && |run| == 4
    requires forall k :: 0 <= k < 4 ==> Moving(cfg, run[k])
    requires run[0].iss == run[2].iss == run[3].iss == b && run[1].iss == b + s
    ensures ReportAt(cfg, run, 3).impact <==>
            Leftover(cfg, s, 1) >= Threshold(cfg, run[2]) && Leftover(cfg, s, 2) >= Threshold(cfg, run[3])
  {
    var steady, quiet := run[..1], run[2..];
    hide Moving, Threshold, Leftover, ReportAt;
    assert Jolted(steady, run[1], quiet) == run;
    MotionsOfFirst(cfg, steady);
    MotionsOfFirst(cfg, quiet);
    assert quiet[..2] == quiet && quiet[..2][..1] == quiet[..1];
    JoltedRunFlagsIff(cfg, steady, run[1], quiet, b, s);
    assert RunScore(cfg, steady, quiet, s, 2) == Leftover(cfg, s, 1);
    assert RunScore(cfg, steady, quiet, s, 3) == Leftover(cfg, s, 2);
  }

  lemma MotionsOfFirst(cfg: Config, samples: seq<Sample>)
    requires samples != [] && Moving(cfg, samples[0])
    ensures Motions(cfg, samples[..0]) == 0 && Motions(cfg, samples[..1]) == 1
    ensures |samples| == 1 ==> Motions(cfg, samples) == 1
  {
    hide Moving;
    assert samples[..1][..0] == [];
    if |samples| == 1 {
      assert samples[..1] == samples;
    }
  }
}
