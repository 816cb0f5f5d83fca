/**
 * Persistence and stability of a track over its last ten observations (src/temporal.cpp), over
 * real arithmetic. The square root is a parameter whose results only need to be nonnegative.
 */
module Temporal {
  import opened Common

  const HISTORY_SIZE: nat := 10
  const METRIC_EPSILON: real := 0.0001

  datatype TemporalMetrics = TemporalMetrics(persistence: real, stability: real)

  function Sum(values: seq<real>): real {
    if values == [] then 0.0 else Sum(values[..|values| - 1]) + values[|values| - 1]
  }

  function SumOfSquares(values: seq<real>): real {
    if values == [] then 0.0
    else SumOfSquares(values[..|values| - 1]) + values[|values| - 1] * values[|values| - 1]
  }

  ghost predicate IsRoot(sqrt: real -> real) { forall v: real :: v >= 0.0 ==> sqrt(v) >= 0.0 }

  /** The last ten of `history`, or all of it. */
  function Window(history: seq<real>): seq<real> { history[Max(0, |history| - HISTORY_SIZE)..] }

  function Deviation(n: real, sum: real, squares: real, sqrt: real -> real): real
    requires n != 0.0
  {
    sqrt(MaxReal(0.0, Variance(n, sum, squares)))
  }

  ghost function Persistence(values: seq<real>, sqrt: real -> real): real
    requires IsRoot(sqrt)
  {
    if |values| < 2 then 0.0
    else
      var n := |values| as real;
      Sum(values) / n / (Deviation(n, Sum(values), SumOfSquares(values), sqrt) + METRIC_EPSILON)
  }

  ghost function Stability(values: seq<real>, sqrt: real -> real): real
    requires IsRoot(sqrt)
  {
    if |values| < 2 then 0.0
    else 1.0 / (Deviation(|values| as real, Sum(values), SumOfSquares(values), sqrt) + METRIC_EPSILON)
  }

  // ----- the circular buffer

  /** Slot i % 10 of the buffer holds input i, for the last ten inputs. */
  ghost predicate Holds(slots: seq<real>, history: seq<real>) {
    && |slots| == HISTORY_SIZE
    && forall i :: Max(0, |history| - HISTORY_SIZE) <= i < |history| ==> slots[i % HISTORY_SIZE] == history[i]
  }

  lemma NextSlot(n: nat, i: nat)
    requires n - HISTORY_SIZE < i < n
    ensures i % HISTORY_SIZE != n % HISTORY_SIZE
    ensures (n + 1) % HISTORY_SIZE == (n % HISTORY_SIZE + 1) % HISTORY_SIZE
  {}

  lemma HoldsNext(slots: seq<real>, history: seq<real>, v: real)
    requires Holds(slots, history)
    ensures Holds(slots[|history| % HISTORY_SIZE := v], history + [v])
  {
    var n, after, more := |history|, slots[|history| % HISTORY_SIZE := v], history + [v];
    forall i | Max(0, n + 1 - HISTORY_SIZE) <= i < n + 1 ensures after[i % HISTORY_SIZE] == more[i] {
      if i < n {
        NextSlot(n, i);
      }
    }
  }

  /** The slots in use are a rotation of the window. */
  lemma SlotsAreRotation(slots: seq<real>, history: seq<real>)
    requires Holds(slots, history)
    ensures var w, r := Window(history), |history| % HISTORY_SIZE;
            slots[..Min(|history|, HISTORY_SIZE)]
              == if |history| < HISTORY_SIZE then w else w[HISTORY_SIZE - r..] + w[..HISTORY_SIZE - r]
  {
    var n, w, r := |history|, Window(history), |history| % HISTORY_SIZE;
    if n < HISTORY_SIZE {
      forall j | 0 <= j < n ensures slots[j] == w[j] {
        assert j % HISTORY_SIZE == j;
      }
    } else {
      forall j | 0 <= j < HISTORY_SIZE
        ensures slots[j] == (w[HISTORY_SIZE - r..] + w[..HISTORY_SIZE - r])[j]
      {
        var i := if j < r then n - r + j else n - HISTORY_SIZE - r + j;
        assert i % HISTORY_SIZE == j;
        assert slots[i % HISTORY_SIZE] == history[i];
      }
    }
  }

  lemma {:induction false} SumsOfConcat(a: seq<real>, b: seq<real>)
    ensures Sum(a + b) == Sum(a) + Sum(b)
    ensures SumOfSquares(a + b) == SumOfSquares(a) + SumOfSquares(b)
  {
    if b == [] {
      assert a + b == a;
    } else {
      var init := b[..|b| - 1];
      assert (a + b)[..|a + b| - 1] == a + init;
      SumsOfConcat(a, init);
    }
  }

  /**
   * Whatever was stored before, the slots in use hold exactly the last ten inputs (as a multiset),
   * so sums over slots are sums over the window.
   */
  lemma SlotsHoldTheWindow(slots: seq<real>, history: seq<real>)
    requires Holds(slots, history)
    ensures var used, w := slots[..Min(|history|, HISTORY_SIZE)], Window(history);
            && multiset(used) == multiset(w) && |used| == |w|
            && Sum(used) == Sum(w) && SumOfSquares(used) == SumOfSquares(w)
  {
    var w, r := Window(history), |history| % HISTORY_SIZE;
    SlotsAreRotation(slots, history);
    if |history| >= HISTORY_SIZE {
      var late, early := w[HISTORY_SIZE - r..], w[..HISTORY_SIZE - r];
      assert w == early + late;
      SumsOfConcat(early, late);
      SumsOfConcat(late, early);
    }
  }

  class TemporalAnalyzer {
    const depressionBuf: array<real>
    const roughnessBuf: array<real>
    var head: nat
    var count: nat
    ghost var depressions: seq<real>
    ghost var roughnesses: seq<real>

    /** The inputs since construction or reset, and what the buffers hold of them. */
    ghost predicate Valid()
      reads this, depressionBuf, roughnessBuf
    {
      && depressionBuf != roughnessBuf
      && Holds(depressionBuf[..], depressions) && Holds(roughnessBuf[..], roughnesses)
      && |depressions| == |roughnesses|
      && head == |depressions| % HISTORY_SIZE && count == Min(|depressions|, HISTORY_SIZE)
    }

    constructor ()
      ensures Valid() && depressions == [] && roughnesses == []
      ensures fresh(depressionBuf) && fresh(roughnessBuf)
    {
      depressionBuf := new real[HISTORY_SIZE](_ => 0.0);
      roughnessBuf := new real[HISTORY_SIZE](_ => 0.0);
      head, count := 0, 0;
      depressions, roughnesses := [], [];
    }

    method Update(depressionScore: real, roughness: real, sqrt: real -> real) returns (metrics: TemporalMetrics)
      requires Valid() && IsRoot(sqrt)
      modifies this, depressionBuf, roughnessBuf
      ensures Valid()
      ensures depressions == old(depressions) + [depressionScore] && roughnesses == old(roughnesses) + [roughness]
      ensures metrics == TemporalMetrics(Persistence(Window(depressions), sqrt), Stability(Window(roughnesses), sqrt))
    {
      HoldsNext(depressionBuf[..], depressions, depressionScore);
      HoldsNext(roughnessBuf[..], roughnesses, roughness);
      NextSlot(|depressions| + 1, |depressions|);
      ghost var slots, others := depressionBuf[..], roughnessBuf[..];
      depressionBuf[head] := depressionScore;
      roughnessBuf[head] := roughness;
      assert depressionBuf[..] == slots[head := depressionScore];
      assert roughnessBuf[..] == others[head := roughness];
      hide Holds;
      head := (head + 1) % HISTORY_SIZE;
      if count < HISTORY_SIZE {
        count := count + 1;
      }
      depressions, roughnesses := depressions + [depressionScore], roughnesses + [roughness];
      var persistence := ComputePersistence(sqrt);
      var stability := ComputeStability(sqrt);
      metrics := TemporalMetrics(persistence, stability);
    }

    method Reset()
      requires Valid()
      modifies this, depressionBuf, roughnessBuf
      ensures Valid() && depressions == [] && roughnesses == []
    {
      forall i | 0 <= i < HISTORY_SIZE { depressionBuf[i] := 0.0; }
      forall i | 0 <= i < HISTORY_SIZE { roughnessBuf[i] := 0.0; }
      head, count := 0, 0;
      depressions, roughnesses := [], [];
    }

    method ComputePersistence(sqrt: real -> real) returns (persistence: real)
      requires Valid() && IsRoot(sqrt)
      ensures persistence == Persistence(Window(depressions), sqrt)
    {
      SlotsHoldTheWindow(depressionBuf[..], depressions);
      hide Holds, Window;
      if count < 2 {
        return 0.0;
      }
      var n := count as real;
      var sum, sumSq := SumSlots(depressionBuf, count);
      var mean := sum / n;
      var variance := sumSq / n - mean * mean;
      assert variance == Variance(n, sum, sumSq);
      hide Variance;
      var stddev := sqrt(MaxReal(0.0, variance));
      persistence := mean / (stddev + METRIC_EPSILON);
    }

    method ComputeStability(sqrt: real -> real) returns (stability: real)
      requires Valid() && IsRoot(sqrt)
      ensures stability == Stability(Window(roughnesses), sqrt)
    {
      SlotsHoldTheWindow(roughnessBuf[..], roughnesses);
      hide Holds, Window;
      if count < 2 {
        return 0.0;
      }
      var n := count as real;
      var sum, sumSq := SumSlots(roughnessBuf, count);
      var mean := sum / n;
      var variance := sumSq / n - mean * mean;
      assert variance == Variance(n, sum, sumSq);
      hide Variance;
      var stddev := sqrt(MaxReal(0.0, variance));
      stability := 1.0 / (stddev + METRIC_EPSILON);
    }
  }

  /** The accumulation loop of both metrics. */
  method SumSlots(slots: array<real>, count: nat) returns (sum: real, sumSq: real)
    requires count <= slots.Length
    ensures sum == Sum(slots[..][..count]) && sumSq == SumOfSquares(slots[..][..count])
  {
    sum, sumSq := 0.0, 0.0;
    for i := 0 to count
      invariant sum == Sum(slots[..][..i]) && sumSq == SumOfSquares(slots[..][..i])
    {
      var v := slots[i];
      assert slots[..][..i + 1][..i] == slots[..][..i];
      sum := sum + v;
      sumSq := sumSq + v * v;
    }
  }

  // ----- the variance of a window

  lemma {:induction false} SumsObeyCauchy(values: seq<real>)
    ensures CauchyHolds(|values| as real, Sum(values), SumOfSquares(values))
  {
    if values != [] {
      var n := |values| - 1;
      SumsObeyCauchy(values[..n]);
      hide CauchyHolds;
      CauchyStep(n as real, Sum(values[..n]), SumOfSquares(values[..n]), values[n]);
    } else {
      assert Sum(values) * Sum(values) == 0.0;
    }
  }

  /** The clamp under the square root never changes the variance of a window. */
  lemma VarianceNeedsNoClamp(values: seq<real>)
    requires values != []
    ensures MaxReal(0.0, Variance(|values| as real, Sum(values), SumOfSquares(values)))
            == Variance(|values| as real, Sum(values), SumOfSquares(values))
  {
    SumsObeyCauchy(values);
    VarianceIsNonnegative(|values| as real, Sum(values), SumOfSquares(values));
    hide Variance;
  }

  predicate Constant(values: seq<real>, c: real) { forall i :: 0 <= i < |values| ==> values[i] == c }

  lemma {:induction false} ConstantSums(values: seq<real>, c: real)
    requires Constant(values, c)
    ensures Repeats(|values| as real, Sum(values), SumOfSquares(values), c)
  {
    if values == [] {
      RepeatsNothing(c);
    } else {
      var n := |values| - 1;
      ConstantSums(values[..n], c);
      hide Repeats;
      assert values[n] == c;
      RepeatsStep(n as real, Sum(values[..n]), SumOfSquares(values[..n]), c);
    }
  }

  /** Only values that all equal their mean meet the bound with equality. */
  lemma {:induction false} TightMeansConstant(values: seq<real>, c: real)
    requires Tight(|values| as real, Sum(values), SumOfSquares(values)) && IsMean(|values| as real, Sum(values), c)
    ensures Constant(values, c)
  {
    hide Tight, IsMean, CauchyHolds, Sum, SumOfSquares;
    if values != [] {
      var n := |values| - 1;
      SumsObeyCauchy(values[..n]);
      Unfold(values);
      if n == 0 {
        TightOne(values[0], c);
      } else {
        TightStep(n as real, Sum(values[..n]), SumOfSquares(values[..n]), values[n], c,
                  Sum(values), SumOfSquares(values));
        TightMeansConstant(values[..n], c);
      }
    }
  }

  lemma Unfold(values: seq<real>)
    requires values != []
    ensures var n := |values| - 1;
            && Sum(values) == Sum(values[..n]) + values[n]
            && SumOfSquares(values) == SumOfSquares(values[..n]) + values[n] * values[n]
            && (n == 0 ==> Sum(values) == values[0])
  {}

  /** The variance of a window is zero exactly when the track did not change at all. */
  lemma {:induction false} VarianceZeroIffConstant(values: seq<real>)
    requires values != []
    ensures Variance(|values| as real, Sum(values), SumOfSquares(values)) == 0.0
            <==> exists c: real :: Constant(values, c)
  {
    hide Variance, Tight, IsMean, Repeats, Constant, Sum, SumOfSquares;
    var n, sum, squares := |values| as real, Sum(values), SumOfSquares(values);
    if Variance(n, sum, squares) == 0.0 {
      ZeroVarianceIsTight(n, sum, squares);
      TightMeansConstant(values, sum / n);
    }
    forall c: real | Constant(values, c) ensures Variance(n, sum, squares) == 0.0 {
      ConstantSums(values, c);
      ConstantVariance(n, sum, squares, c);
    }
  }
}
