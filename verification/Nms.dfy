/**
 * Greedy non-maximum suppression over scored boxes (src/perception.cpp). `order` stands for what
 * std::sort leaves: any permutation of the indices with descending scores.
 */
module Nms {
  import opened Common

  datatype Rect = Rect(x: int, y: int, width: int, height: int) {
    function Area(): int { width * height }
    predicate Empty() { width <= 0 || height <= 0 }
  }

  /** Length of the overlap of two segments, not positive when they do not meet. */
  function Overlap(a: int, aLength: int, b: int, bLength: int): int {
    Min(a + aLength, b + bLength) - Max(a, b)
  }

  /** cv::Rect's operator&: the empty rectangle unless the two share a pixel. */
  function Intersect(a: Rect, b: Rect): Rect {
    if a.Empty() || b.Empty() then Rect(0, 0, 0, 0)
    else
      var w, h := Overlap(a.x, a.width, b.x, b.width), Overlap(a.y, a.height, b.y, b.height);
      if w <= 0 || h <= 0 then Rect(0, 0, 0, 0) else Rect(Max(a.x, b.x), Max(a.y, b.y), w, h)
  }

  const UNION_EPSILON: real := 0.000001

  /** Intersection over union; the denominator is a whole number plus a millionth, so never zero. */
  function Iou(a: Rect, b: Rect): real {
    var inter := Intersect(a, b).Area();
    WholePlusEpsilon(a.Area() + b.Area() - inter);
    inter as real / (a.Area() as real + b.Area() as real - inter as real + UNION_EPSILON)
  }

  lemma WholePlusEpsilon(n: int)
    ensures n as real + UNION_EPSILON != 0.0
  {
    assert n >= 0 || n <= -1;
  }

  predicate Suppresses(a: Rect, b: Rect, limit: real) { Iou(a, b) > limit }

  lemma SuppressesIsSymmetric(a: Rect, b: Rect, limit: real)
    ensures Suppresses(a, b, limit) <==> Suppresses(b, a, limit)
  {
    assert Intersect(a, b) == Intersect(b, a);
  }

  lemma AreaIsMonotone(w: int, h: int, v: int, g: int)
    requires 0 <= w <= v && 0 <= h <= g
    ensures 0 <= w * h <= v * g
  {
    assert w * h <= v * h <= v * g;
  }

  /** For boxes of nonnegative size the ratio is at least 0 and, thanks to the epsilon, below 1. */
  lemma IouIsAFraction(a: Rect, b: Rect)
    requires a.width >= 0 && a.height >= 0 && b.width >= 0 && b.height >= 0
    ensures 0.0 <= Iou(a, b) < 1.0
    ensures Iou(a, b) > 0.0 <==> exists px, py :: Inside(a, px, py) && Inside(b, px, py)
  {
    var c := Intersect(a, b);
    AreaIsMonotone(c.width, c.height, a.width, a.height);
    AreaIsMonotone(c.width, c.height, b.width, b.height);
    var inter, denominator := c.Area() as real, a.Area() as real + b.Area() as real - c.Area() as real + UNION_EPSILON;
    Fraction(inter, denominator);
    if c.width > 0 {
      AreaIsMonotone(1, 1, c.width, c.height);
      assert Inside(a, c.x, c.y) && Inside(b, c.x, c.y);
    }
  }

  predicate Inside(r: Rect, px: int, py: int) {
    r.x <= px < r.x + r.width && r.y <= py < r.y + r.height
  }

  lemma Fraction(n: real, d: real)
    requires 0.0 <= n < d
    ensures 0.0 <= n / d < 1.0 && (n / d > 0.0 <==> n > 0.0)
  {
    assert n / d * d == n;
    Quotient(n / d, n, d);
  }

  lemma Quotient(q: real, n: real, d: real)
    requires 0.0 <= n < d && q * d == n
    ensures 0.0 <= q < 1.0 && (q > 0.0 <==> n > 0.0)
  {
    if q < 0.0 {
      NegativeProduct(d, q, n);
    } else if q > 1.0 {
      PositiveProduct(d, q - 1.0, n - d);
    } else if q > 0.0 {
      PositiveProduct(d, q, n);
    }
  }

  // ----- the greedy selection

  predicate IsOrder(scores: seq<real>, order: seq<int>) {
    && |order| == |scores|
    && (forall p :: 0 <= p < |order| ==> 0 <= order[p] < |scores|)
    && (forall p, q :: 0 <= p < q < |order| ==> order[p] != order[q])
    && (forall j :: 0 <= j < |scores| ==> j in order)
    && (forall p, q :: 0 <= p < q < |order| ==> scores[order[p]] >= scores[order[q]])
  }

  predicate Indices(boxes: seq<Rect>, kept: seq<int>) {
    forall k :: 0 <= k < |kept| ==> 0 <= kept[k] < |boxes|
  }

  predicate AnySuppresses(boxes: seq<Rect>, kept: seq<int>, j: int, limit: real)
    requires Indices(boxes, kept) && 0 <= j < |boxes|
  {
    exists k :: 0 <= k < |kept| && Suppresses(boxes[kept[k]], boxes[j], limit)
  }

  /** The boxes chosen among the `n` best: eligible ones that no better chosen box suppresses. */
  function Kept(boxes: seq<Rect>, scores: seq<real>, order: seq<int>, threshold: real, limit: real, n: nat)
    : (kept: seq<int>)
    requires |boxes| == |scores| && IsOrder(scores, order) && n <= |order|
    ensures Indices(boxes, kept)
  {
    if n == 0 then []
    else
      var better, j := Kept(boxes, scores, order, threshold, limit, n - 1), order[n - 1];
      if scores[j] >= threshold && !AnySuppresses(boxes, better, j, limit) then better + [j] else better
  }

  lemma OneMoreSuppressor(boxes: seq<Rect>, kept: seq<int>, last: int, j: int, limit: real)
    requires Indices(boxes, kept) && 0 <= last < |boxes| && 0 <= j < |boxes|
    ensures Indices(boxes, kept + [last])
    ensures AnySuppresses(boxes, kept + [last], j, limit)
            <==> AnySuppresses(boxes, kept, j, limit) || Suppresses(boxes[last], boxes[j], limit)
  {
    var more := kept + [last];
    hide Suppresses;
    if AnySuppresses(boxes, kept, j, limit) {
      var k :| 0 <= k < |kept| && Suppresses(boxes[kept[k]], boxes[j], limit);
      assert more[k] == kept[k];
    }
    if Suppresses(boxes[last], boxes[j], limit) {
      assert more[|kept|] == last;
    }
  }

  /** From position `from` of the order on, the flags say which boxes `kept` suppresses. */
  ghost predicate Flags(flags: seq<bool>, boxes: seq<Rect>, order: seq<int>, kept: seq<int>, limit: real, from: nat) {
    && |flags| == |boxes| && Indices(boxes, kept)
    && (forall p :: 0 <= p < |order| ==> 0 <= order[p] < |boxes|)
    && forall p :: from <= p < |order| ==> flags[order[p]] == AnySuppresses(boxes, kept, order[p], limit)
  }

  /** The inner loop: boxes after position `i` that the box just kept overlaps too much. */
  method SuppressLater(boxes: seq<Rect>, scores: seq<real>, order: seq<int>, iouThreshold: real, i: nat,
                       ghost better: seq<int>, suppressed: array<bool>)
    requires |boxes| == |scores| && IsOrder(scores, order) && i < |order|
    requires Flags(suppressed[..], boxes, order, better, iouThreshold, i)
    modifies suppressed
    ensures Flags(suppressed[..], boxes, order, better + [order[i]], iouThreshold, i + 1)
  {
    hide Suppresses, AnySuppresses;
    var idx := order[i];
    for j := i + 1 to |order|
      invariant forall p :: i < p < j ==>
                  suppressed[order[p]] == AnySuppresses(boxes, better + [idx], order[p], iouThreshold)
      invariant forall p :: j <= p < |order| ==>
                  suppressed[order[p]] == AnySuppresses(boxes, better, order[p], iouThreshold)
    {
      var jdx := order[j];
      OneMoreSuppressor(boxes, better, idx, jdx, iouThreshold);
      if !suppressed[jdx] && Suppresses(boxes[idx], boxes[jdx], iouThreshold) {
        suppressed[jdx] := true;
      }
    }
  }

  method NmsBoxes(boxes: seq<Rect>, scores: seq<real>, order: seq<int>, scoreThreshold: real, iouThreshold: real)
    returns (indices: seq<int>)
    requires |boxes| == |scores| && IsOrder(scores, order)
    ensures indices == Kept(boxes, scores, order, scoreThreshold, iouThreshold, |order|)
  {
    indices := [];
    if |boxes| == 0 {
      return;
    }
    var suppressed := new bool[|boxes|](_ => false);
    NothingSuppresses(boxes, iouThreshold);
    assert Flags(suppressed[..], boxes, order, indices, iouThreshold, 0);
    for i := 0 to |order|
      invariant indices == Kept(boxes, scores, order, scoreThreshold, iouThreshold, i)
      invariant Flags(suppressed[..], boxes, order, indices, iouThreshold, i)
    {
      hide Suppresses, AnySuppresses;
      var idx := order[i];
      assert suppressed[..][idx] == suppressed[idx];
      if suppressed[idx] || scores[idx] < scoreThreshold {
        continue;
      }
      hide Flags, IsOrder;
      SuppressLater(boxes, scores, order, iouThreshold, i, indices, suppressed);
      indices := indices + [idx];
    }
  }

  lemma NothingSuppresses(boxes: seq<Rect>, limit: real)
    ensures forall j :: 0 <= j < |boxes| ==> !AnySuppresses(boxes, [], j, limit)
  {}

  // ----- what is kept

  lemma {:induction false} KeptComeFromOrder(
    boxes: seq<Rect>, scores: seq<real>, order: seq<int>, threshold: real, limit: real, n: nat, k: nat)
    requires |boxes| == |scores| && IsOrder(scores, order) && n <= |order|
    requires k < |Kept(boxes, scores, order, threshold, limit, n)|
    ensures exists p :: 0 <= p < n && order[p] == Kept(boxes, scores, order, threshold, limit, n)[k]
    ensures scores[Kept(boxes, scores, order, threshold, limit, n)[k]] >= threshold
  {
    hide AnySuppresses;
    if k < |Kept(boxes, scores, order, threshold, limit, n - 1)| {
      KeptComeFromOrder(boxes, scores, order, threshold, limit, n - 1, k);
    } else {
      assert order[n - 1] == Kept(boxes, scores, order, threshold, limit, n)[k];
    }
  }

  /** Kept boxes are distinct, eligible, in descending order of score, and none suppresses another. */
  lemma {:induction false} KeptAreCompatible(
    boxes: seq<Rect>, scores: seq<real>, order: seq<int>, threshold: real, limit: real, n: nat, a: nat, b: nat)
    requires |boxes| == |scores| && IsOrder(scores, order) && n <= |order|
    requires a < b < |Kept(boxes, scores, order, threshold, limit, n)|
    ensures var kept := Kept(boxes, scores, order, threshold, limit, n);
            && kept[a] != kept[b]
            && scores[kept[a]] >= scores[kept[b]] >= threshold
            && Iou(boxes[kept[a]], boxes[kept[b]]) <= limit
            && Iou(boxes[kept[b]], boxes[kept[a]]) <= limit
  {
    var kept := Kept(boxes, scores, order, threshold, limit, n);
    var better := Kept(boxes, scores, order, threshold, limit, n - 1);
    if b < |better| {
      KeptAreCompatible(boxes, scores, order, threshold, limit, n - 1, a, b);
    } else {
      KeptComeFromOrder(boxes, scores, order, threshold, limit, n - 1, a);
      assert !Suppresses(boxes[better[a]], boxes[order[n - 1]], limit);
      SuppressesIsSymmetric(boxes[kept[a]], boxes[kept[b]], limit);
    }
  }

  /** A box is kept exactly when it is eligible and no kept box that precedes it suppresses it. */
  lemma {:induction false} KeptIff(
    boxes: seq<Rect>, scores: seq<real>, order: seq<int>, threshold: real, limit: real, n: nat, p: nat)
    requires |boxes| == |scores| && IsOrder(scores, order) && p < n <= |order|
    ensures order[p] in Kept(boxes, scores, order, threshold, limit, n) <==>
            && scores[order[p]] >= threshold
            && !AnySuppresses(boxes, Kept(boxes, scores, order, threshold, limit, p), order[p], limit)
  {
    hide AnySuppresses;
    var better := Kept(boxes, scores, order, threshold, limit, n - 1);
    if p < n - 1 {
      KeptIff(boxes, scores, order, threshold, limit, n - 1, p);
    } else if order[p] in better {
      var k :| 0 <= k < |better| && better[k] == order[p];
      KeptComeFromOrder(boxes, scores, order, threshold, limit, n - 1, k);
    }
  }

  lemma {:induction false} KeptOnlyGrows(
    boxes: seq<Rect>, scores: seq<real>, order: seq<int>, threshold: real, limit: real, m: nat, n: nat)
    requires |boxes| == |scores| && IsOrder(scores, order) && m <= n <= |order|
    ensures Kept(boxes, scores, order, threshold, limit, m) <= Kept(boxes, scores, order, threshold, limit, n)
  {
    hide AnySuppresses;
    if m < n {
      KeptOnlyGrows(boxes, scores, order, threshold, limit, m, n - 1);
    }
  }

  /** Every eligible box that is dropped overlaps a kept box of at least its score by more than the limit. */
  lemma {:induction false} DroppedHaveAReason(
    boxes: seq<Rect>, scores: seq<real>, order: seq<int>, threshold: real, limit: real, j: nat)
    returns (k: nat)
    requires |boxes| == |scores| && IsOrder(scores, order) && j < |boxes| && scores[j] >= threshold
    requires j !in Kept(boxes, scores, order, threshold, limit, |order|)
    ensures var kept := Kept(boxes, scores, order, threshold, limit, |order|);
            k < |kept| && scores[kept[k]] >= scores[j] && Iou(boxes[kept[k]], boxes[j]) > limit
  {
    assert j in order;
    var p :| 0 <= p < |order| && order[p] == j;
    KeptIff(boxes, scores, order, threshold, limit, |order|, p);
    var better := Kept(boxes, scores, order, threshold, limit, p);
    k :| 0 <= k < |better| && Suppresses(boxes[better[k]], boxes[j], limit);
    KeptOnlyGrows(boxes, scores, order, threshold, limit, p, |order|);
    KeptComeFromOrder(boxes, scores, order, threshold, limit, p, k);
  }

  /**
   * `chosen` is stable: it holds a box exactly when the box is eligible and no chosen box earlier
   * in the order overlaps it by more than the limit.
   */
  predicate Stable(boxes: seq<Rect>, scores: seq<real>, order: seq<int>, threshold: real, limit: real, chosen: set<int>)
    requires |boxes| == |scores| && IsOrder(scores, order)
  {
    forall p :: 0 <= p < |order| ==>
      (order[p] in chosen <==>
       && scores[order[p]] >= threshold
       && !ChosenSuppresses(boxes, scores, order, limit, chosen, p))
  }

  predicate ChosenSuppresses(
    boxes: seq<Rect>, scores: seq<real>, order: seq<int>, limit: real, chosen: set<int>, p: nat)
    requires |boxes| == |scores| && IsOrder(scores, order) && p < |order|
  {
    exists q :: 0 <= q < p && order[q] in chosen && Suppresses(boxes[order[q]], boxes[order[p]], limit)
  }

  /** Up to any position, a stable set and the greedy selection agree on who suppresses the next box. */
  lemma {:induction false} StableAgrees(
    boxes: seq<Rect>, scores: seq<real>, order: seq<int>, threshold: real, limit: real, chosen: set<int>, n: nat)
    requires |boxes| == |scores| && IsOrder(scores, order) && n < |order|
    requires forall p :: 0 <= p < n ==>
               (order[p] in chosen <==> order[p] in Kept(boxes, scores, order, threshold, limit, n))
    ensures ChosenSuppresses(boxes, scores, order, limit, chosen, n)
            <==> AnySuppresses(boxes, Kept(boxes, scores, order, threshold, limit, n), order[n], limit)
  {
    hide Suppresses;
    var kept := Kept(boxes, scores, order, threshold, limit, n);
    if ChosenSuppresses(boxes, scores, order, limit, chosen, n) {
      var q :| 0 <= q < n && order[q] in chosen && Suppresses(boxes[order[q]], boxes[order[n]], limit);
      assert order[q] in kept;
      var k :| 0 <= k < |kept| && kept[k] == order[q];
      assert Suppresses(boxes[kept[k]], boxes[order[n]], limit);
    }
    if AnySuppresses(boxes, kept, order[n], limit) {
      var k :| 0 <= k < |kept| && Suppresses(boxes[kept[k]], boxes[order[n]], limit);
      KeptComeFromOrder(boxes, scores, order, threshold, limit, n, k);
      var q :| 0 <= q < n && order[q] == kept[k];
      assert order[q] in chosen;
    }
  }

  lemma {:induction false} StablePrefix(
    boxes: seq<Rect>, scores: seq<real>, order: seq<int>, threshold: real, limit: real, chosen: set<int>, n: nat)
    requires |boxes| == |scores| && IsOrder(scores, order) && n <= |order|
    requires Stable(boxes, scores, order, threshold, limit, chosen)
    ensures forall p :: 0 <= p < n ==>
              (order[p] in chosen <==> order[p] in Kept(boxes, scores, order, threshold, limit, n))
  {
    hide AnySuppresses, ChosenSuppresses;
    if n > 0 {
      StablePrefix(boxes, scores, order, threshold, limit, chosen, n - 1);
      StableAgrees(boxes, scores, order, threshold, limit, chosen, n - 1);
      forall p | 0 <= p < n
        ensures order[p] in chosen <==> order[p] in Kept(boxes, scores, order, threshold, limit, n)
      {
        KeptIff(boxes, scores, order, threshold, limit, n, p);
        if p < n - 1 {
          KeptIff(boxes, scores, order, threshold, limit, n - 1, p);
        }
      }
    }
  }

  /** The kept boxes are the one and only stable set of the order. */
  lemma KeptIsTheStableSet(
    boxes: seq<Rect>, scores: seq<real>, order: seq<int>, threshold: real, limit: real, chosen: set<int>)
    requires |boxes| == |scores| && IsOrder(scores, order)
    requires forall j :: j in chosen ==> 0 <= j < |boxes|
    ensures Stable(boxes, scores, order, threshold, limit, chosen) <==>
            forall j :: j in chosen <==> j in Kept(boxes, scores, order, threshold, limit, |order|)
  {
    hide AnySuppresses, ChosenSuppresses;
    var kept := Kept(boxes, scores, order, threshold, limit, |order|);
    if Stable(boxes, scores, order, threshold, limit, chosen) {
      StablePrefix(boxes, scores, order, threshold, limit, chosen, |order|);
      forall j ensures j in chosen <==> j in kept {
        if 0 <= j < |boxes| {
          assert j in order;
          var p :| 0 <= p < |order| && order[p] == j;
        }
      }
    }
    if forall j :: j in chosen <==> j in kept {
      forall p | 0 <= p < |order|
        ensures order[p] in chosen <==>
                scores[order[p]] >= threshold && !ChosenSuppresses(boxes, scores, order, limit, chosen, p)
      {
        KeptIff(boxes, scores, order, threshold, limit, |order|, p);
        forall q | 0 <= q < p
          ensures order[q] in chosen <==> order[q] in Kept(boxes, scores, order, threshold, limit, p)
        {
          KeptIff(boxes, scores, order, threshold, limit, |order|, q);
          KeptIff(boxes, scores, order, threshold, limit, p, q);
        }
        StableAgrees(boxes, scores, order, threshold, limit, chosen, p);
      }
    }
  }

  // ----- applying it again

  predicate Compatible(boxes: seq<Rect>, limit: real) {
    forall i: nat, j: nat :: i < |boxes| && j < |boxes| && i != j ==> !Suppresses(boxes[i], boxes[j], limit)
  }

  lemma {:induction false} CompatiblePrefixIsKept(
    boxes: seq<Rect>, scores: seq<real>, order: seq<int>, threshold: real, limit: real, n: nat)
    requires |boxes| == |scores| && IsOrder(scores, order) && n <= |order|
    requires Eligible(scores, threshold)
    requires Compatible(boxes, limit)
    ensures Kept(boxes, scores, order, threshold, limit, n) == order[..n]
  {
    if n > 0 {
      CompatiblePrefixIsKept(boxes, scores, order, threshold, limit, n - 1);
      assert order[..n] == order[..n - 1] + [order[n - 1]];
    }
  }

  /** Boxes that are all eligible and mutually compatible are all kept, in the order given. */
  lemma CompatibleAreAllKept(boxes: seq<Rect>, scores: seq<real>, order: seq<int>, threshold: real, limit: real)
    requires |boxes| == |scores| && IsOrder(scores, order)
    requires Eligible(scores, threshold) && Compatible(boxes, limit)
    ensures Kept(boxes, scores, order, threshold, limit, |order|) == order
  {
    hide Kept, IsOrder, Eligible, Compatible;
    CompatiblePrefixIsKept(boxes, scores, order, threshold, limit, |order|);
    assert order[..|order|] == order;
  }

  /** The boxes and scores that the selection kept, in the order it kept them. */
  predicate AreKept(boxes: seq<Rect>, scores: seq<real>, kept: seq<int>, keptBoxes: seq<Rect>, keptScores: seq<real>)
    requires |boxes| == |scores| && Indices(boxes, kept)
  {
    && |keptBoxes| == |keptScores| == |kept|
    && forall k :: 0 <= k < |kept| ==> keptBoxes[k] == boxes[kept[k]] && keptScores[k] == scores[kept[k]]
  }

  lemma KeptPairIsCompatible(boxes: seq<Rect>, scores: seq<real>, order: seq<int>, threshold: real, limit: real,
                             i: nat, j: nat)
    requires |boxes| == |scores| && IsOrder(scores, order)
    requires var kept := Kept(boxes, scores, order, threshold, limit, |order|); i < |kept| && j < |kept|
    ensures var kept := Kept(boxes, scores, order, threshold, limit, |order|);
            && scores[kept[i]] >= threshold
            && (i != j ==> !Suppresses(boxes[kept[i]], boxes[kept[j]], limit))
  {
    hide Iou, Kept, IsOrder;
    KeptComeFromOrder(boxes, scores, order, threshold, limit, |order|, i);
    if i < j {
      KeptAreCompatible(boxes, scores, order, threshold, limit, |order|, i, j);
    } else if j < i {
      KeptAreCompatible(boxes, scores, order, threshold, limit, |order|, j, i);
    }
  }

  predicate Eligible(scores: seq<real>, threshold: real) {
    forall i :: 0 <= i < |scores| ==> scores[i] >= threshold
  }

  lemma KeptAreEligible(boxes: seq<Rect>, scores: seq<real>, order: seq<int>, threshold: real, limit: real,
                        keptBoxes: seq<Rect>, keptScores: seq<real>)
    requires |boxes| == |scores| && IsOrder(scores, order)
    requires AreKept(boxes, scores, Kept(boxes, scores, order, threshold, limit, |order|), keptBoxes, keptScores)
    ensures |keptBoxes| == |keptScores| && Eligible(keptScores, threshold)
  {
    hide Kept, IsOrder;
    forall i | 0 <= i < |keptScores| ensures keptScores[i] >= threshold {
      KeptComeFromOrder(boxes, scores, order, threshold, limit, |order|, i);
    }
  }

  lemma KeptBoxesAreCompatible(boxes: seq<Rect>, scores: seq<real>, order: seq<int>, threshold: real, limit: real,
                               keptBoxes: seq<Rect>, keptScores: seq<real>)
    requires |boxes| == |scores| && IsOrder(scores, order)
    requires AreKept(boxes, scores, Kept(boxes, scores, order, threshold, limit, |order|), keptBoxes, keptScores)
    ensures Compatible(keptBoxes, limit)
  {
    hide Kept, IsOrder, Suppresses;
    forall i: nat, j: nat | i < |keptBoxes| && j < |keptBoxes| && i != j
      ensures !Suppresses(keptBoxes[i], keptBoxes[j], limit)
    {
      KeptPairIsCompatible(boxes, scores, order, threshold, limit, i, j);
    }
  }

  /** Suppression applied to what it kept drops nothing, however equal scores are ordered. */
  lemma {:induction false} NmsIsIdempotent(
    boxes: seq<Rect>, scores: seq<real>, order: seq<int>, threshold: real, limit: real,
    keptBoxes: seq<Rect>, keptScores: seq<real>, again: seq<int>)
    requires |boxes| == |scores| && IsOrder(scores, order)
    requires AreKept(boxes, scores, Kept(boxes, scores, order, threshold, limit, |order|), keptBoxes, keptScores)
    requires IsOrder(keptScores, again)
    ensures Kept(keptBoxes, keptScores, again, threshold, limit, |again|) == again
  {
    hide Kept, IsOrder, AreKept, Compatible, Eligible;
    KeptAreEligible(boxes, scores, order, threshold, limit, keptBoxes, keptScores);
    KeptBoxesAreCompatible(boxes, scores, order, threshold, limit, keptBoxes, keptScores);
    CompatibleAreAllKept(keptBoxes, keptScores, again, threshold, limit);
  }
}
