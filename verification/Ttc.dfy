/**
 * Monocular time-to-contact of one track (vigia_edge_node/ttc_estimator.hpp), over real arithmetic.
 * An absent depth reading stands for NaN; NoAlert stands for a result that is not valid.
 */
module Ttc {
  import opened Common

  const RING_SIZE: nat := 3
  const MIN_BBOX_AREA_FRAC: real := 0.005
  const YAW_RATE_THRESHOLD_DEG_S: real := 8.0
  const MIN_EGO_SPEED_MS: real := 5.0
  const MIDAS_RECEDING_THRESHOLD: real := 0.05

  datatype Frame = Frame(
    height: real, area: real, midas: Option<real>, yawRate: real, dt: real, egoSpeed: real, baseTtc: real)

  datatype TtcResult = NoAlert | Alert(ttc: real, classId: int)

  datatype Track = Track(
    ring: seq<real>, head: nat, count: nat, framesSeen: nat, prevMedian: real, prevMidas: real)

  const EMPTY := Track([0.0, 0.0, 0.0], 0, 0, 0, 0.0, 0.0)

  /** One of the three values, with one of the others on each side of it. */
  function Median3(a: real, b: real, c: real): (m: real)
    ensures || (m == a && (b <= m <= c || c <= m <= b))
            || (m == b && (a <= m <= c || c <= m <= a))
            || (m == c && (a <= m <= b || b <= m <= a))
  {
    var a1, b1 := if a > b then b else a, if a > b then a else b;
    var b2 := if b1 > c then c else b1;
    if a1 > b2 then a1 else b2
  }

  /** Division by a frame area of zero gives an infinity or NaN, of which only minus infinity is below the limit. */
  predicate TooSmall(area: real, frameArea: real) {
    if frameArea == 0.0 then area < 0.0 else area / frameArea < MIN_BBOX_AREA_FRAC
  }

  predicate Dropped(frameArea: real, f: Frame) {
    || TooSmall(f.area, frameArea)
    || f.yawRate > YAW_RATE_THRESHOLD_DEG_S || -f.yawRate > YAW_RATE_THRESHOLD_DEG_S
    || f.egoSpeed < MIN_EGO_SPEED_MS
  }

  predicate Shaped(s: Track) { |s.ring| == RING_SIZE && s.head < RING_SIZE && s.count <= RING_SIZE }

  /** Slots keep their old heights; only the positions and the remembered values go. */
  function ResetTrack(s: Track): Track { Track(s.ring, 0, 0, 0, 0.0, 0.0) }

  function Push(s: Track, height: real): (t: Track)
    requires Shaped(s)
    ensures Shaped(t)
  {
    s.(ring := s.ring[s.head := height], head := (s.head + 1) % RING_SIZE,
       count := if s.count < RING_SIZE then s.count + 1 else s.count)
  }

  function Median(s: Track): real
    requires Shaped(s)
  {
    Median3(s.ring[0], s.ring[1], s.ring[2])
  }

  function Rate(h: real, prev: real, dt: real): real
    requires dt > 0.0
  {
    (h - prev) / dt
  }

  /** Growth of the median height per second since the last measured frame. */
  function Growth(p: Track, f: Frame): real
    requires Shaped(p) && f.dt > 0.0
  {
    Rate(Median(p), p.prevMedian, f.dt)
  }

  /** Height over growth, the time until contact. */
  function Ratio(h: real, growth: real): real
    requires growth > 0.0
  {
    h / growth
  }

  predicate Measured(p: Track, f: Frame) { p.count == RING_SIZE && f.dt > 0.0 }

  predicate Looming(p: Track, f: Frame)
    requires Shaped(p)
  {
    Measured(p, f) && Growth(p, f) > 0.0 && Ratio(Median(p), Growth(p, f)) > 0.0
  }

  predicate Receding(p: Track, f: Frame) {
    f.midas.Some? && p.framesSeen > 0 && f.midas.value - p.prevMidas > MIDAS_RECEDING_THRESHOLD
  }

  function Next(frameArea: real, s: Track, f: Frame): (t: Track)
    requires Shaped(s)
    ensures Shaped(t)
  {
    if Dropped(frameArea, f) then ResetTrack(s)
    else
      var p := Push(s, f.height);
      if !Measured(p, f) then p
      else if !Looming(p, f) then p.(prevMedian := Median(p))
      else
        p.(prevMedian := Median(p),
           prevMidas := if f.midas.Some? then f.midas.value else p.prevMidas,
           framesSeen := if Receding(p, f) then p.framesSeen else p.framesSeen + 1)
  }

  function Outcome(frameArea: real, classId: int, s: Track, f: Frame): TtcResult
    requires Shaped(s)
  {
    if Dropped(frameArea, f) then NoAlert
    else
      var p := Push(s, f.height);
      if !Looming(p, f) || Receding(p, f) || Ratio(Median(p), Growth(p, f)) >= f.baseTtc then NoAlert
      else Alert(Ratio(Median(p), Growth(p, f)), classId)
  }

  class TtcEstimator {
    const classId: int
    const frameArea: real
    const hRing: array<real>
    var ringHead: nat
    var ringCount: nat
    var framesSeen: nat
    var prevHMedian: real
    var prevMidasZ: real

    function Now(): Track
      reads this, hRing
    {
      Track(hRing[..], ringHead, ringCount, framesSeen, prevHMedian, prevMidasZ)
    }

    predicate Valid()
      reads this, hRing
    {
      Shaped(Now())
    }

    constructor (classId: int, frameWidthPx: real, frameHeightPx: real)
      ensures Valid() && Now() == EMPTY && fresh(hRing)
      ensures this.classId == classId && frameArea == frameWidthPx * frameHeightPx
    {
      this.classId, frameArea := classId, frameWidthPx * frameHeightPx;
      hRing := new real[RING_SIZE](_ => 0.0);
      ringHead, ringCount, framesSeen, prevHMedian, prevMidasZ := 0, 0, 0, 0.0, 0.0;
      new;
      assert hRing[..] == [0.0, 0.0, 0.0];
    }

    method Reset()
      requires Valid()
      modifies this
      ensures Valid() && Now() == ResetTrack(old(Now()))
    {
      ringCount, ringHead, framesSeen, prevHMedian, prevMidasZ := 0, 0, 0, 0.0, 0.0;
    }

    method Update(f: Frame) returns (r: TtcResult)
      requires Valid()
      modifies this, hRing
      ensures Valid() && Now() == Next(frameArea, old(Now()), f)
      ensures r == Outcome(frameArea, classId, old(Now()), f)
    {
      if TooSmall(f.area, frameArea) {
        Reset();
        return NoAlert;
      }
      if (if f.yawRate < 0.0 then -f.yawRate else f.yawRate) > YAW_RATE_THRESHOLD_DEG_S {
        Reset();
        return NoAlert;
      }
      if f.egoSpeed < MIN_EGO_SPEED_MS {
        Reset();
        return NoAlert;
      }
      ghost var s := Now();
      hRing[ringHead] := f.height;
      ringHead := (ringHead + 1) % RING_SIZE;
      if ringCount < RING_SIZE {
        ringCount := ringCount + 1;
      }
      ghost var p := Push(s, f.height);
      assert Now() == p;
      hide Dropped, Median3;
      if ringCount < RING_SIZE {
        return NoAlert;
      }
      var hMedian := Median3(hRing[0], hRing[1], hRing[2]);
      if f.dt <= 0.0 {
        return NoAlert;
      }
      var dhdt := (hMedian - prevHMedian) / f.dt;
      assert hMedian == Median(p) && dhdt == Growth(p, f);
      prevHMedian := hMedian;
      hide Median, Growth, Push;
      if dhdt <= 0.0 {
        return NoAlert;
      }
      var ttc := hMedian / dhdt;
      assert ttc == Ratio(hMedian, dhdt);
      hide Ratio;
      if ttc <= 0.0 {
        return NoAlert;
      }
      if f.midas.Some? {
        var dz := f.midas.value - prevMidasZ;
        prevMidasZ := f.midas.value;
        if framesSeen > 0 && dz > MIDAS_RECEDING_THRESHOLD {
          return NoAlert;
        }
      }
      framesSeen := framesSeen + 1;
      if ttc < f.baseTtc {
        return Alert(ttc, classId);
      }
      return NoAlert;
    }
  }

  // ----- whole runs

  function After(frameArea: real, frames: seq<Frame>): (s: Track)
    ensures Shaped(s)
  {
    if frames == [] then EMPTY else Next(frameArea, After(frameArea, frames[..|frames| - 1]), frames[|frames| - 1])
  }

  function OutcomeAt(frameArea: real, classId: int, frames: seq<Frame>, k: nat): TtcResult
    requires k < |frames|
  {
    Outcome(frameArea, classId, After(frameArea, frames[..k]), frames[k])
  }

  // ----- the median filter

  /** The frames since the last dropped one. */
  function Accepted(frameArea: real, frames: seq<Frame>): seq<Frame> {
    if frames == [] then []
    else
      var last := frames[|frames| - 1];
      if Dropped(frameArea, last) then [] else Accepted(frameArea, frames[..|frames| - 1]) + [last]
  }

  function Heights(frames: seq<Frame>): (heights: seq<real>)
    ensures |heights| == |frames| && forall i :: 0 <= i < |frames| ==> heights[i] == frames[i].height
  {
    if frames == [] then [] else Heights(frames[..|frames| - 1]) + [frames[|frames| - 1].height]
  }

  /** The ring has the last three accepted heights, wherever its head is. */
  ghost predicate RingHolds(s: Track, heights: seq<real>) {
    && Shaped(s) && s.count == Min(|heights|, RING_SIZE) && s.head == |heights| % RING_SIZE
    && forall i :: Max(0, |heights| - RING_SIZE) <= i < |heights| ==> s.ring[i % RING_SIZE] == heights[i]
  }

  lemma PushHolds(s: Track, heights: seq<real>, height: real)
    requires RingHolds(s, heights)
    ensures RingHolds(Push(s, height), heights + [height])
  {
    var n := |heights|;
    assert (n + 1) % RING_SIZE == (n % RING_SIZE + 1) % RING_SIZE;
    var t := Push(s, height);
    forall i | Max(0, n + 1 - RING_SIZE) <= i < n + 1 ensures t.ring[i % RING_SIZE] == (heights + [height])[i] {
      if i < n {
        assert i % RING_SIZE != n % RING_SIZE;
      }
    }
  }

  lemma {:induction false} RingHoldsAccepted(frameArea: real, frames: seq<Frame>)
    ensures RingHolds(After(frameArea, frames), Heights(Accepted(frameArea, frames)))
  {
    hide Dropped, Looming;
    if frames != [] {
      var before, f := frames[..|frames| - 1], frames[|frames| - 1];
      RingHoldsAccepted(frameArea, before);
      if !Dropped(frameArea, f) {
        var a := Accepted(frameArea, before);
        assert (a + [f])[..|a|] == a;
        PushHolds(After(frameArea, before), Heights(a), f.height);
      }
    }
  }

  lemma MedianTurns(a: real, b: real, c: real)
    ensures Median3(a, b, c) == Median3(b, c, a) == Median3(c, a, b)
  {}

  /** Whenever three frames have been accepted, the ring's median is that of the last three heights. */
  lemma MedianIsOfLastThree(frameArea: real, frames: seq<Frame>)
    requires |Accepted(frameArea, frames)| >= RING_SIZE
    ensures var a := Accepted(frameArea, frames);
            Median(After(frameArea, frames)) == Median3(a[|a| - 3].height, a[|a| - 2].height, a[|a| - 1].height)
  {
    RingHoldsAccepted(frameArea, frames);
    var h, s := Heights(Accepted(frameArea, frames)), After(frameArea, frames);
    var n := |h|;
    hide Median3, Accepted, After, Heights;
    MedianTurns(h[n - 3], h[n - 2], h[n - 1]);
    assert s.ring[(n - 3) % 3] == h[n - 3] && s.ring[(n - 2) % 3] == h[n - 2] && s.ring[(n - 1) % 3] == h[n - 1];
  }

  // ----- scale invariance

  function Times(k: real, h: real): real { k * h }

  function Scaled(f: Frame, k: real): Frame { f.(height := Times(k, f.height)) }

  ghost predicate IsScaled(s: Track, t: Track, k: real) {
    && Shaped(s) && t == s.(ring := t.ring, prevMedian := t.prevMedian)
    && |t.ring| == |s.ring| && t.prevMedian == Times(k, s.prevMedian)
    && forall i :: 0 <= i < |s.ring| ==> t.ring[i] == Times(k, s.ring[i])
  }

  lemma TimesOrders(k: real, a: real, b: real)
    requires k > 0.0
    ensures Times(k, a) > Times(k, b) <==> a > b
  {
    if a > b {
      PositiveProduct(k, a - b, k * (a - b));
    } else {
      NonnegativeProduct(k, b - a, k * (b - a));
    }
  }

  lemma MedianScales(a: real, b: real, c: real, k: real)
    requires k > 0.0
    ensures Median3(Times(k, a), Times(k, b), Times(k, c)) == Times(k, Median3(a, b, c))
  {
    hide Times;
    TimesOrders(k, a, b);
    TimesOrders(k, a, c);
    TimesOrders(k, b, c);
    TimesOrders(k, b, a);
  }

  lemma RateScales(k: real, h: real, prev: real, dt: real)
    requires k > 0.0 && dt > 0.0
    ensures Rate(Times(k, h), Times(k, prev), dt) == Times(k, Rate(h, prev, dt))
    ensures Rate(Times(k, h), Times(k, prev), dt) > 0.0 <==> Rate(h, prev, dt) > 0.0
  {
    var g, kg := (h - prev) / dt, (k * h - k * prev) / dt;
    assert g * dt == h - prev && kg * dt == k * h - k * prev;
    SameMultiple(dt, kg, k * g);
    assert Times(k, 0.0) == 0.0;
    TimesOrders(k, g, 0.0);
  }

  lemma RatioScales(k: real, h: real, g: real)
    requires k > 0.0 && g > 0.0 && Times(k, g) > 0.0
    ensures Ratio(Times(k, h), Times(k, g)) == Ratio(h, g)
  {
    var q, kq := h / g, k * h / (k * g);
    assert q * g == h && kq * (k * g) == k * h;
    SameMultiple(k * g, kq, q);
  }

  lemma MeasurementScales(p: Track, q: Track, k: real, f: Frame)
    requires k > 0.0 && IsScaled(p, q, k)
    ensures Median(q) == Times(k, Median(p))
    ensures Measured(q, Scaled(f, k)) == Measured(p, f) && Receding(q, Scaled(f, k)) == Receding(p, f)
    ensures Looming(q, Scaled(f, k)) == Looming(p, f)
    ensures Looming(p, f) ==>
              Ratio(Median(q), Growth(q, Scaled(f, k))) == Ratio(Median(p), Growth(p, f))
  {
    hide Times, Rate, Ratio, Median3;
    MedianScales(p.ring[0], p.ring[1], p.ring[2], k);
    if f.dt > 0.0 {
      RateScales(k, Median(p), p.prevMedian, f.dt);
      if Growth(p, f) > 0.0 {
        RatioScales(k, Median(p), Growth(p, f));
      }
    }
  }

  lemma ZeroTimes(k: real)
    ensures Times(k, 0.0) == 0.0
  {}

  /** What a frame's result and its effect depend on is the same, or scaled, at both scales. */
  lemma StepScales(frameArea: real, classId: int, s: Track, t: Track, k: real, f: Frame)
    requires k > 0.0 && IsScaled(s, t, k)
    ensures IsScaled(Next(frameArea, s, f), Next(frameArea, t, Scaled(f, k)), k)
    ensures Outcome(frameArea, classId, s, f) == Outcome(frameArea, classId, t, Scaled(f, k))
  {
    assert Dropped(frameArea, Scaled(f, k)) == Dropped(frameArea, f);
    hide Dropped, Times, Ratio, Growth;
    ZeroTimes(k);
    if !Dropped(frameArea, f) {
      var p, q := Push(s, f.height), Push(t, Times(k, f.height));
      assert IsScaled(p, q, k);
      hide Push;
      MeasurementScales(p, q, k, f);
      hide Median, Looming, Measured, Receding;
    }
  }

  ghost predicate AllScaled(frames: seq<Frame>, scaled: seq<Frame>, k: real) {
    |scaled| == |frames| && forall i :: 0 <= i < |frames| ==> scaled[i] == Scaled(frames[i], k)
  }

  lemma {:induction false} RunScales(frameArea: real, frames: seq<Frame>, scaled: seq<Frame>, k: real)
    requires k > 0.0 && AllScaled(frames, scaled, k)
    ensures IsScaled(After(frameArea, frames), After(frameArea, scaled), k)
  {
    hide Next, Outcome, Scaled;
    var n := |frames|;
    if n > 0 {
      RunScales(frameArea, frames[..n - 1], scaled[..n - 1], k);
      StepScales(frameArea, 0, After(frameArea, frames[..n - 1]), After(frameArea, scaled[..n - 1]), k, frames[n - 1]);
    }
  }

  /** Scaling every height of a run by one positive factor changes no result, resets included. */
  lemma TtcIsScaleInvariant(frameArea: real, classId: int, frames: seq<Frame>, scaled: seq<Frame>, k: real, i: nat)
    requires k > 0.0 && AllScaled(frames, scaled, k) && i < |frames|
    ensures OutcomeAt(frameArea, classId, scaled, i) == OutcomeAt(frameArea, classId, frames, i)
  {
    hide Next, Outcome, Scaled;
    RunScales(frameArea, frames[..i], scaled[..i], k);
    StepScales(frameArea, classId, After(frameArea, frames[..i]), After(frameArea, scaled[..i]), k, frames[i]);
  }

  // ----- a height that does not change

  predicate Steady(frames: seq<Frame>, h: real) {
    forall i :: 0 <= i < |frames| ==> frames[i].height == h
  }

  /** Some frame from the third on had a positive time step, so a median has been remembered. */
  predicate HasMeasured(frames: seq<Frame>) { exists i :: 2 <= i < |frames| && frames[i].dt > 0.0 }

  /** After a steady run the ring is full of `h`, and the remembered median is `h` or still 0. */
  ghost predicate SteadyState(s: Track, n: nat, h: real, measured: bool) {
    && RingHolds(s, seq(n, _ => h))
    && s.prevMedian == (if measured then h else 0.0)
    && (!measured ==> s.framesSeen == 0)
  }

  lemma SteadyPush(s: Track, n: nat, h: real, measured: bool)
    requires SteadyState(s, n, h, measured)
    ensures var p := Push(s, h);
            && SteadyState(p, n + 1, h, measured)
            && (n >= 2 ==> p.count == RING_SIZE && Median(p) == h)
            && (n < 2 ==> p.count < RING_SIZE)
  {
    PushHolds(s, seq(n, _ => h), h);
    assert seq(n, _ => h) + [h] == seq(n + 1, _ => h);
    var p := Push(s, h);
    if n >= 2 {
      assert p.ring[n % 3] == h && p.ring[(n - 1) % 3] == h && p.ring[(n - 2) % 3] == h;
    }
  }

  /** The one case in which a frame of a steady height raises an alert, after `n` accepted ones. */
  predicate FirstComparison(n: nat, h: real, measured: bool, f: Frame) {
    h > 0.0 && n >= 2 && f.dt > 0.0 && !measured && f.dt < f.baseTtc
  }

  lemma SteadyStep(frameArea: real, classId: int, s: Track, n: nat, h: real, measured: bool, f: Frame)
    requires SteadyState(s, n, h, measured) && !Dropped(frameArea, f) && f.height == h
    ensures SteadyState(Next(frameArea, s, f), n + 1, h, measured || (n >= 2 && f.dt > 0.0))
    ensures Outcome(frameArea, classId, s, f) ==
            if FirstComparison(n, h, measured, f) then Alert(f.dt, classId) else NoAlert
  {
    SteadyPush(s, n, h, measured);
    var p := Push(s, h);
    hide Dropped, Median, Push;
    if n >= 2 && f.dt > 0.0 {
      if measured {
        assert Growth(p, f) == Rate(h, h, f.dt) == 0.0;
      } else if h > 0.0 {
        FirstQuotient(h, f.dt);
      } else {
        NoGrowth(h, f.dt);
      }
    }
    hide Rate, Ratio;
  }

  lemma NoGrowth(h: real, dt: real)
    requires h <= 0.0 && dt > 0.0
    ensures Rate(h, 0.0, dt) <= 0.0
  {
    var g := h / dt;
    assert g * dt == h;
    if g > 0.0 {
      PositiveProduct(g, dt, h);
    }
  }

  lemma FirstQuotient(h: real, dt: real)
    requires h > 0.0 && dt > 0.0
    ensures Rate(h, 0.0, dt) > 0.0 && Ratio(h, Rate(h, 0.0, dt)) == dt
  {
    var g := h / dt;
    assert g * dt == h;
    if g <= 0.0 {
      NonnegativeProduct(-g, dt, -h);
    }
    var q := h / g;
    assert q * g == h;
    SameMultiple(g, q, dt);
  }

  lemma SteadyReset(frameArea: real, classId: int, s: Track, h: real, f: Frame)
    requires Shaped(s) && Dropped(frameArea, f)
    ensures SteadyState(Next(frameArea, s, f), 0, h, false)
    ensures Outcome(frameArea, classId, s, f) == NoAlert
  {}

  lemma {:induction false} SteadyRun(frameArea: real, frames: seq<Frame>, h: real)
    requires Steady(frames, h)
    ensures var a := Accepted(frameArea, frames); SteadyState(After(frameArea, frames), |a|, h, HasMeasured(a))
  {
    hide Dropped, Next, SteadyState;
    var n := |frames|;
    if n == 0 {
      NothingIsSteady(h);
    } else {
      var before, f := frames[..n - 1], frames[n - 1];
      var a := Accepted(frameArea, before);
      if Dropped(frameArea, f) {
        SteadyReset(frameArea, 0, After(frameArea, before), h, f);
      } else {
        SteadyRun(frameArea, before, h);
        SteadyStep(frameArea, 0, After(frameArea, before), |a|, h, HasMeasured(a), f);
        MeasuredSnoc(a, f);
      }
    }
  }

  lemma NothingIsSteady(h: real)
    ensures SteadyState(EMPTY, 0, h, false)
  {}

  lemma MeasuredSnoc(before: seq<Frame>, f: Frame)
    ensures HasMeasured(before + [f]) <==> HasMeasured(before) || (|before| >= 2 && f.dt > 0.0)
  {
    var frames := before + [f];
    if HasMeasured(before) {
      var i :| 2 <= i < |before| && before[i].dt > 0.0;
      assert frames[i].dt > 0.0;
    } else if |before| >= 2 && f.dt > 0.0 {
      assert frames[|before|].dt > 0.0;
    }
    if HasMeasured(frames) {
      var i :| 2 <= i < |frames| && frames[i].dt > 0.0;
      assert i < |before| ==> before[i] == frames[i];
    }
  }

  /**
   * A height that never changes raises an alert in exactly one case, once after the start and once
   * after every reset: in the first accepted frame with a positive time step once three heights are
   * in, which is compared with a remembered median of 0, when the height is positive and the time
   * step is below the threshold. The reported time to contact is the time step.
   */
  lemma SteadyHeightAlertsIff(frameArea: real, classId: int, frames: seq<Frame>, h: real, i: nat)
    requires Steady(frames, h) && i < |frames|
    ensures var a := Accepted(frameArea, frames[..i]);
            OutcomeAt(frameArea, classId, frames, i) ==
            if !Dropped(frameArea, frames[i]) && FirstComparison(|a|, h, HasMeasured(a), frames[i])
            then Alert(frames[i].dt, classId) else NoAlert
  {
    hide Dropped, Next, SteadyState, Outcome, FirstComparison;
    var a, s := Accepted(frameArea, frames[..i]), After(frameArea, frames[..i]);
    SteadyRun(frameArea, frames[..i], h);
    if Dropped(frameArea, frames[i]) {
      SteadyReset(frameArea, classId, s, h, frames[i]);
    } else {
      SteadyStep(frameArea, classId, s, |a|, h, HasMeasured(a), frames[i]);
    }
  }

  lemma AcceptedNext(frameArea: real, frames: seq<Frame>, i: nat)
    requires i < |frames|
    ensures Accepted(frameArea, frames[..0]) == []
    ensures Accepted(frameArea, frames[..i + 1]) ==
            if Dropped(frameArea, frames[i]) then [] else Accepted(frameArea, frames[..i]) + [frames[i]]
  {
    hide Dropped;
    assert frames[..i + 1][..i] == frames[..i];
  }

  lemma AcceptedOfSeven(frameArea: real, f: Frame, turning: Frame, frames: seq<Frame>)
    requires !Dropped(frameArea, f) && Dropped(frameArea, turning)
    requires frames == [f, f, f, turning, f, f, f]
    ensures Accepted(frameArea, frames[..2]) == [f, f] && Accepted(frameArea, frames[..6]) == [f, f]
  {
    hide Dropped, Accepted;
    AcceptedNext(frameArea, frames, 0);
    AcceptedNext(frameArea, frames, 1);
    AcceptedNext(frameArea, frames, 3);
    AcceptedNext(frameArea, frames, 4);
    AcceptedNext(frameArea, frames, 5);
  }

  /**
   * Seven frames of one height, the fourth dropped because the vehicle turns: the third and the
   * seventh raise alerts, although nothing approaches.
   */
  lemma SteadyHeightAlertsTwice(frameArea: real, classId: int, f: Frame, turning: Frame, frames: seq<Frame>)
    requires frameArea == 300000.0 && f == Frame(100.0, 5000.0, None, 0.0, 0.1, 10.0, 2.0)
    requires turning == f.(yawRate := 20.0) && frames == [f, f, f, turning, f, f, f]
    ensures OutcomeAt(frameArea, classId, frames, 2) == Alert(0.1, classId)
    ensures OutcomeAt(frameArea, classId, frames, 6) == Alert(0.1, classId)
  {
    assert !Dropped(frameArea, f) && Dropped(frameArea, turning);
    hide Dropped, Accepted, OutcomeAt;
    AcceptedOfSeven(frameArea, f, turning, frames);
    SteadyHeightAlertsIff(frameArea, classId, frames, 100.0, 2);
    SteadyHeightAlertsIff(frameArea, classId, frames, 100.0, 6);
  }
}
