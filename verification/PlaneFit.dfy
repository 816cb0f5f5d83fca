/**
 * Least-squares plane through a depth region and the statistics of its residuals
 * (src/analytical.cpp), over real arithmetic. Sums are over the pixels before (y, x) in raster
 * order, so that each is what a pair of nested loops has accumulated on reaching (y, x).
 */
module PlaneFit {
  import opened Common

  type Region = seq<seq<real>>

  ghost predicate Grid(z: Region) {
    z != [] && z[0] != [] && forall y :: 0 <= y < |z| ==> |z[y]| == |z[0]|
  }

  /** (y, x) is a pixel, the end of a row, or the end of the region. */
  ghost predicate At(z: Region, y: nat, x: nat) {
    Grid(z) && y <= |z| && x <= |z[0]| && (y == |z| ==> x == 0)
  }

  datatype Plane = Plane(a: real, b: real, c: real) {
    function Height(x: real, y: real): real { a * x + b * y + c }
  }

  // ----- moments

  datatype Moments = Moments(
    n: real, x: real, y: real, z: real, xx: real, yy: real, xy: real, xz: real, yz: real)

  function AddPoint(m: Moments, x: real, y: real, z: real): Moments {
    Moments(m.n + 1.0, m.x + x, m.y + y, m.z + z, m.xx + x * x, m.yy + y * y, m.xy + x * y, m.xz + x * z, m.yz + y * z)
  }

  ghost function MomentsTo(z: Region, y: nat, x: nat): Moments
    requires At(z, y, x)
    decreases y, x
  {
    if x > 0 then AddPoint(MomentsTo(z, y, x - 1), (x - 1) as real, y as real, z[y][x - 1])
    else if y > 0 then MomentsTo(z, y - 1, |z[0]|)
    else Moments(0.0, 0.0, 0.0, 0.0, 0.0, 0.0, 0.0, 0.0, 0.0)
  }

  ghost function AllMoments(z: Region): Moments
    requires Grid(z)
  {
    MomentsTo(z, |z|, 0)
  }

  // ----- the fit

  function Denominator(m: Moments): real { Determinant(m.n, m.x, m.y, m.xx, m.yy, m.xy) }

  function Determinant(n: real, x: real, y: real, xx: real, yy: real, xy: real): real {
    xx * yy * n + 2.0 * x * y * xy - xx * y * y - yy * x * x - xy * xy * n
  }

  function NumeratorA(m: Moments): real {
    m.xz * m.yy * m.n + m.x * m.y * m.yz + m.xy * m.y * m.z - m.xz * m.y * m.y - m.yy * m.x * m.z - m.xy * m.yz * m.n
  }

  function NumeratorB(m: Moments): real {
    m.xx * m.yz * m.n + m.x * m.y * m.xz + m.x * m.xy * m.z - m.xx * m.y * m.z - m.yz * m.x * m.x - m.xy * m.xz * m.n
  }

  const DENOM_EPSILON: real := 0.000001

  predicate Solvable(m: Moments) { Denominator(m) > DENOM_EPSILON || -Denominator(m) > DENOM_EPSILON }

  /** Cramer's rule, or the zero plane when the system is singular. */
  function Fit(m: Moments): Plane
    requires m.n != 0.0
  {
    if Solvable(m) then
      var a := NumeratorA(m) / Denominator(m);
      var b := NumeratorB(m) / Denominator(m);
      Plane(a, b, (m.z - a * m.x - b * m.y) / m.n)
    else Plane(0.0, 0.0, 0.0)
  }

  /** The three normal equations of the least-squares problem. */
  predicate Normal(m: Moments, p: Plane) {
    && p.a * m.xx + p.b * m.xy + p.c * m.x == m.xz
    && p.a * m.xy + p.b * m.yy + p.c * m.y == m.yz
    && p.a * m.x + p.b * m.y + p.c * m.n == m.z
  }

  /** One row of the system with Cramer's quotients put in and the divisors multiplied out. */
  function CramerRow(n: real, x: real, y: real, z: real, u: real, v: real, w: real, rhs: real,
                     d: real, na: real, nb: real): real {
    n * u * na + n * v * nb + w * (d * z - na * x - nb * y) - n * rhs * d
  }

  lemma CramerIdentities(n: real, x: real, y: real, z: real, xx: real, yy: real, xy: real, xz: real, yz: real)
    ensures CramerRow(n, x, y, z, xx, xy, x, xz,
              xx * yy * n + 2.0 * x * y * xy - xx * y * y - yy * x * x - xy * xy * n,
              xz * yy * n + x * y * yz + xy * y * z - xz * y * y - yy * x * z - xy * yz * n,
              xx * yz * n + x * y * xz + x * xy * z - xx * y * z - yz * x * x - xy * xz * n) == 0.0
    ensures CramerRow(n, x, y, z, xy, yy, y, yz,
              xx * yy * n + 2.0 * x * y * xy - xx * y * y - yy * x * x - xy * xy * n,
              xz * yy * n + x * y * yz + xy * y * z - xz * y * y - yy * x * z - xy * yz * n,
              xx * yz * n + x * y * xz + x * xy * z - xx * y * z - yz * x * x - xy * xz * n) == 0.0
  {}

  lemma CramerRows(m: Moments)
    ensures CramerRow(m.n, m.x, m.y, m.z, m.xx, m.xy, m.x, m.xz, Denominator(m), NumeratorA(m), NumeratorB(m)) == 0.0
    ensures CramerRow(m.n, m.x, m.y, m.z, m.xy, m.yy, m.y, m.yz, Denominator(m), NumeratorA(m), NumeratorB(m)) == 0.0
  {
    CramerVanishes(m.n, m.x, m.y, m.z, m.xx, m.yy, m.xy, m.xz, m.yz, Denominator(m), NumeratorA(m), NumeratorB(m));
    hide *;
  }

  lemma CramerVanishes(n: real, x: real, y: real, z: real, xx: real, yy: real, xy: real, xz: real, yz: real,
                       d: real, na: real, nb: real)
    requires d == xx * yy * n + 2.0 * x * y * xy - xx * y * y - yy * x * x - xy * xy * n
    requires na == xz * yy * n + x * y * yz + xy * y * z - xz * y * y - yy * x * z - xy * yz * n
    requires nb == xx * yz * n + x * y * xz + x * xy * z - xx * y * z - yz * x * x - xy * xz * n
    ensures CramerRow(n, x, y, z, xx, xy, x, xz, d, na, nb) == 0.0
    ensures CramerRow(n, x, y, z, xy, yy, y, yz, d, na, nb) == 0.0
  {
    hide CramerRow;
    CramerIdentities(n, x, y, z, xx, yy, xy, xz, yz);
  }

  lemma RowHolds(n: real, d: real, a: real, b: real, c: real, na: real, nb: real,
                 p: real, q: real, s: real, x: real, y: real, z: real, rhs: real)
    requires n != 0.0 && d != 0.0 && a * d == na && b * d == nb && c * n == z - a * x - b * y
    requires CramerRow(n, x, y, z, p, q, s, rhs, d, na, nb) == 0.0
    ensures a * p + b * q + c * s == rhs
  {
    var k := n * d;
    assert k != 0.0;
    assert d * (z - a * x - b * y) == d * z - na * x - nb * y;
    assert k * (a * p) == n * p * na;
    assert k * (b * q) == n * q * nb;
    assert k * (c * s) == s * (d * (c * n));
    assert k * (a * p + b * q + c * s) == k * (a * p) + k * (b * q) + k * (c * s);
    assert k * rhs == n * rhs * d;
    Cancel(k, a * p + b * q + c * s, rhs);
  }

  /** `p` is Cramer's quotient, with the divisions multiplied out. */
  ghost predicate Cramer(m: Moments, p: Plane) {
    && p.a * Denominator(m) == NumeratorA(m)
    && p.b * Denominator(m) == NumeratorB(m)
    && p.c * m.n == m.z - p.a * m.x - p.b * m.y
  }

  lemma FitIsCramer(m: Moments)
    requires m.n != 0.0 && Solvable(m)
    ensures Cramer(m, Fit(m))
  {
    hide Denominator, NumeratorA, NumeratorB;
    var p := Fit(m);
    Quotient(NumeratorA(m), Denominator(m));
    Quotient(NumeratorB(m), Denominator(m));
    Quotient(m.z - p.a * m.x - p.b * m.y, m.n);
  }

  lemma FirstRow(m: Moments, p: Plane)
    requires m.n != 0.0 && Denominator(m) != 0.0 && Cramer(m, p)
    ensures p.a * m.xx + p.b * m.xy + p.c * m.x == m.xz
  {
    hide Denominator, NumeratorA, NumeratorB, CramerRow;
    CramerRows(m);
    RowHolds(m.n, Denominator(m), p.a, p.b, p.c, NumeratorA(m), NumeratorB(m), m.xx, m.xy, m.x, m.x, m.y, m.z, m.xz);
  }

  lemma SecondRow(m: Moments, p: Plane)
    requires m.n != 0.0 && Denominator(m) != 0.0 && Cramer(m, p)
    ensures p.a * m.xy + p.b * m.yy + p.c * m.y == m.yz
  {
    hide Denominator, NumeratorA, NumeratorB, CramerRow;
    CramerRows(m);
    RowHolds(m.n, Denominator(m), p.a, p.b, p.c, NumeratorA(m), NumeratorB(m), m.xy, m.yy, m.y, m.x, m.y, m.z, m.yz);
  }

  /** Whenever the system is taken to be solvable, the fitted plane solves it. */
  lemma FitIsNormal(m: Moments)
    requires m.n != 0.0 && Solvable(m)
    ensures Normal(m, Fit(m))
  {
    FitIsCramer(m);
    hide Fit, Denominator, NumeratorA, NumeratorB;
    FirstRow(m, Fit(m));
    SecondRow(m, Fit(m));
  }

  lemma Quotient(u: real, v: real)
    requires v != 0.0
    ensures u / v * v == u
  {}

  // ----- residuals

  /** Sums over residuals r: of r, of r squared, and of r weighted by x and by y. */
  datatype Residuals = Residuals(r: real, rr: real, xr: real, yr: real)

  ghost function Residual(z: Region, p: Plane, y: nat, x: nat): real
    requires Grid(z) && y < |z| && x < |z[0]|
  {
    z[y][x] - p.Height(x as real, y as real)
  }

  function AddResidual(s: Residuals, x: real, y: real, r: real): Residuals {
    Residuals(s.r + r, s.rr + r * r, s.xr + x * r, s.yr + y * r)
  }

  ghost function ResidualsTo(z: Region, p: Plane, y: nat, x: nat): Residuals
    requires At(z, y, x)
    decreases y, x
  {
    if x > 0 then AddResidual(ResidualsTo(z, p, y, x - 1), (x - 1) as real, y as real, Residual(z, p, y, x - 1))
    else if y > 0 then ResidualsTo(z, p, y - 1, |z[0]|)
    else Residuals(0.0, 0.0, 0.0, 0.0)
  }

  ghost function AllResiduals(z: Region, p: Plane): Residuals
    requires Grid(z)
  {
    ResidualsTo(z, p, |z|, 0)
  }

  /** The residual sums are what the moments say they are. */
  ghost predicate Agree(m: Moments, s: Residuals, p: Plane) {
    && s.r == RowGap(p, m.z, m.x, m.y, m.n)
    && s.xr == RowGap(p, m.xz, m.xx, m.xy, m.x)
    && s.yr == RowGap(p, m.yz, m.xy, m.yy, m.y)
  }

  /** By how much `p` misses one normal equation. */
  function RowGap(p: Plane, rhs: real, u: real, v: real, w: real): real {
    rhs - (p.a * u + p.b * v + p.c * w)
  }

  lemma AgreeStep(m: Moments, s: Residuals, p: Plane, x: real, y: real, z: real, r: real)
    requires Agree(m, s, p) && r == z - p.Height(x, y)
    ensures Agree(AddPoint(m, x, y, z), AddResidual(s, x, y, r), p)
  {
    hide RowGap, Plane.Height;
    AgreeRow(p, 1.0, m.x, m.y, m.n, m.z, x, y, z, r, x, y, z, r);
    AgreeRow(p, x, m.xx, m.xy, m.x, m.xz, x, y, z, r, x * x, x * y, x * z, x * r);
    AgreeRow(p, y, m.xy, m.yy, m.y, m.yz, x, y, z, r, x * y, y * y, y * z, y * r);
  }

  /** One weighted residual added to a sum that agrees with its moments. */
  lemma AgreeRow(p: Plane, k: real, u: real, v: real, w: real, t: real, x: real, y: real, z: real, r: real,
                 kx: real, ky: real, kz: real, kr: real)
    requires r == z - p.Height(x, y) && kx == k * x && ky == k * y && kz == k * z && kr == k * r
    ensures RowGap(p, t, u, v, w) + kr == RowGap(p, t + kz, u + kx, v + ky, w + k)
  {
    Distribute(p.a, p.b, p.c, u, v, w, kx, ky, k);
    Weigh(k, x, y, z, p.a, p.b, p.c, r);
  }

  lemma Distribute(a: real, b: real, c: real, u: real, v: real, w: real, du: real, dv: real, dw: real)
    ensures a * (u + du) + b * (v + dv) + c * (w + dw) == a * u + b * v + c * w + (a * du + b * dv + c * dw)
  {}

  lemma Weigh(k: real, x: real, y: real, z: real, a: real, b: real, c: real, r: real)
    requires r == z - (a * x + b * y + c)
    ensures k * r == k * z - (a * (k * x) + b * (k * y) + c * k)
  {}

  lemma {:induction false} ResidualsAgree(z: Region, p: Plane, y: nat, x: nat)
    requires At(z, y, x)
    ensures Agree(MomentsTo(z, y, x), ResidualsTo(z, p, y, x), p)
    decreases y, x
  {
    hide AddPoint, AddResidual, Agree;
    if x > 0 {
      ResidualsAgree(z, p, y, x - 1);
      AgreeStep(MomentsTo(z, y, x - 1), ResidualsTo(z, p, y, x - 1), p, (x - 1) as real, y as real, z[y][x - 1],
                Residual(z, p, y, x - 1));
    } else if y > 0 {
      ResidualsAgree(z, p, y - 1, |z[0]|);
    } else {
      ZerosAgree(p);
    }
  }

  lemma ZerosAgree(p: Plane)
    ensures Agree(Moments(0.0, 0.0, 0.0, 0.0, 0.0, 0.0, 0.0, 0.0, 0.0), Residuals(0.0, 0.0, 0.0, 0.0), p)
  {}

  lemma GapsVanish(m: Moments, s: Residuals, p: Plane)
    requires Agree(m, s, p)
    ensures Normal(m, p) <==> s.r == 0.0 && s.xr == 0.0 && s.yr == 0.0
  {}

  /** A plane solves the normal equations exactly when its residuals sum to zero and are orthogonal to x and y. */
  lemma NormalMeansOrthogonal(z: Region, p: Plane)
    requires Grid(z)
    ensures Normal(AllMoments(z), p) <==>
            var s := AllResiduals(z, p); s.r == 0.0 && s.xr == 0.0 && s.yr == 0.0
  {
    ResidualsAgree(z, p, |z|, 0);
    GapsVanish(AllMoments(z), AllResiduals(z, p), p);
  }

  // ----- optimality

  function Square(g: real): real { g * g }

  /** The sum of squared height differences between two planes. */
  ghost function GapTo(z: Region, d: Plane, y: nat, x: nat): real
    requires At(z, y, x)
    decreases y, x
  {
    if x > 0 then
      GapTo(z, d, y, x - 1) + Square(d.Height((x - 1) as real, y as real))
    else if y > 0 then GapTo(z, d, y - 1, |z[0]|)
    else 0.0
  }

  function Minus(p: Plane, q: Plane): Plane { Plane(p.a - q.a, p.b - q.b, p.c - q.c) }

  ghost predicate Shifted(s: Residuals, t: Residuals, d: Plane, gap: real) {
    t.rr == s.rr - 2.0 * (d.a * s.xr + d.b * s.yr + d.c * s.r) + gap
  }

  lemma ShiftStep(s: Residuals, t: Residuals, d: Plane, gap: real, x: real, y: real, r: real, g: real)
    requires Shifted(s, t, d, gap) && g == d.Height(x, y)
    ensures Shifted(AddResidual(s, x, y, r), AddResidual(t, x, y, r - g), d, gap + Square(g))
  {
    assert (r - g) * (r - g) == r * r - 2.0 * (r * g) + g * g;
    CrossTerm(d.a, d.b, d.c, x, y, r, g);
    Distribute(d.a, d.b, d.c, s.xr, s.yr, s.r, x * r, y * r, r);
  }

  lemma CrossTerm(a: real, b: real, c: real, x: real, y: real, r: real, g: real)
    requires g == a * x + b * y + c
    ensures r * g == a * (x * r) + b * (y * r) + c * r
  {}

  lemma {:induction false} SseShift(z: Region, p: Plane, q: Plane, y: nat, x: nat)
    requires At(z, y, x)
    ensures Shifted(ResidualsTo(z, p, y, x), ResidualsTo(z, q, y, x), Minus(q, p), GapTo(z, Minus(q, p), y, x))
    decreases y, x
  {
    hide AddResidual, Shifted;
    if x > 0 {
      SseShift(z, p, q, y, x - 1);
      var d, fx, fy := Minus(q, p), (x - 1) as real, y as real;
      HeightsSubtract(p, q, fx, fy);
      var g, r := d.Height(fx, fy), Residual(z, p, y, x - 1);
      assert Residual(z, q, y, x - 1) == r - g;
      assert ResidualsTo(z, q, y, x) == AddResidual(ResidualsTo(z, q, y, x - 1), fx, fy, r - g);
      assert ResidualsTo(z, p, y, x) == AddResidual(ResidualsTo(z, p, y, x - 1), fx, fy, r);
      assert GapTo(z, d, y, x) == GapTo(z, d, y, x - 1) + Square(g);
      ShiftStep(ResidualsTo(z, p, y, x - 1), ResidualsTo(z, q, y, x - 1), d, GapTo(z, d, y, x - 1), fx, fy, r, g);
    } else if y > 0 {
      SseShift(z, p, q, y - 1, |z[0]|);
    } else {
      ZerosShift(Minus(q, p));
    }
  }

  lemma HeightsSubtract(p: Plane, q: Plane, x: real, y: real)
    ensures Minus(q, p).Height(x, y) == q.Height(x, y) - p.Height(x, y)
  {}

  lemma ZerosShift(d: Plane)
    ensures Shifted(Residuals(0.0, 0.0, 0.0, 0.0), Residuals(0.0, 0.0, 0.0, 0.0), d, 0.0)
  {}

  lemma SquareOfPositive(g: real)
    requires g > 0.0
    ensures Square(g) > 0.0
  {
    PositiveProduct(g, g, Square(g));
  }

  lemma SquareOfNegation(g: real)
    ensures Square(-g) == Square(g)
  {}

  lemma SquareSign(g: real)
    ensures Square(g) >= 0.0
    ensures g != 0.0 ==> Square(g) > 0.0
  {
    if g > 0.0 {
      SquareOfPositive(g);
    } else if g < 0.0 {
      SquareOfPositive(-g);
      SquareOfNegation(g);
    }
  }

  /** The gap is at least the square at any one pixel passed, so it vanishes only if that does. */
  lemma {:induction false} GapDominates(z: Region, d: Plane, y: nat, x: nat, py: nat, px: nat)
    requires At(z, y, x) && px < |z[0]| && (py < y || (py == y && px < x))
    requires GapTo(z, d, y, x) <= 0.0
    ensures d.Height(px as real, py as real) == 0.0
    decreases y, x
  {
    hide Square, Plane.Height;
    if x > 0 {
      SquareSign(d.Height((x - 1) as real, y as real));
      GapNonnegative(z, d, y, x - 1);
      if py < y || px < x - 1 {
        GapDominates(z, d, y, x - 1, py, px);
      }
    } else {
      GapDominates(z, d, y - 1, |z[0]|, py, px);
    }
  }

  lemma {:induction false} GapNonnegative(z: Region, d: Plane, y: nat, x: nat)
    requires At(z, y, x)
    ensures GapTo(z, d, y, x) >= 0.0
    decreases y, x
  {
    hide Square, Plane.Height;
    if x > 0 {
      GapNonnegative(z, d, y, x - 1);
      SquareSign(d.Height((x - 1) as real, y as real));
    } else if y > 0 {
      GapNonnegative(z, d, y - 1, |z[0]|);
    }
  }

  /** A plane whose residuals are orthogonal has the least sum of squares of all planes. */
  lemma OrthogonalIsLeast(z: Region, p: Plane, q: Plane)
    requires Grid(z) && Normal(AllMoments(z), p)
    ensures AllResiduals(z, q).rr == AllResiduals(z, p).rr + GapTo(z, Minus(q, p), |z|, 0)
    ensures AllResiduals(z, p).rr <= AllResiduals(z, q).rr
  {
    hide Normal;
    NormalMeansOrthogonal(z, p);
    SseShift(z, p, q, |z|, 0);
    GapNonnegative(z, Minus(q, p), |z|, 0);
  }

  /** With two rows and two columns it is the only one that does. */
  lemma OrthogonalIsUnique(z: Region, p: Plane, q: Plane)
    requires Grid(z) && |z| >= 2 && |z[0]| >= 2 && Normal(AllMoments(z), p)
    requires AllResiduals(z, q).rr <= AllResiduals(z, p).rr
    ensures q == p
  {
    hide Normal, AllResiduals, GapTo, Plane.Height;
    var d := Minus(q, p);
    OrthogonalIsLeast(z, p, q);
    GapDominates(z, d, |z|, 0, 0, 0);
    GapDominates(z, d, |z|, 0, 0, 1);
    GapDominates(z, d, |z|, 0, 1, 0);
    HeightsAtCorners(d);
  }

  lemma HeightsAtCorners(d: Plane)
    ensures d.Height(0.0, 0.0) == d.c && d.Height(1.0, 0.0) == d.a + d.c && d.Height(0.0, 1.0) == d.b + d.c
  {}

  // ----- the denominator in closed form

  /** 0 + 1 + ... + (k - 1). */
  function Triangle(k: real): real { k * (k - 1.0) / 2.0 }

  /** 0 + 1 + 4 + ... + (k - 1) * (k - 1). */
  function Pyramid(k: real): real { k * (k - 1.0) * (2.0 * k - 1.0) / 6.0 }

  // What each coordinate moment is after `y` rows of `c` pixels and `x` more.
  function Count(c: real, y: real, x: real): real { y * c + x }
  function SumX(c: real, y: real, x: real): real { y * Triangle(c) + Triangle(x) }
  function SumY(c: real, y: real, x: real): real { c * Triangle(y) + x * y }
  function SumXX(c: real, y: real, x: real): real { y * Pyramid(c) + Pyramid(x) }
  function SumYY(c: real, y: real, x: real): real { c * Pyramid(y) + x * (y * y) }
  function SumXY(c: real, y: real, x: real): real { Triangle(c) * Triangle(y) + y * Triangle(x) }

  ghost predicate Closed(m: Moments, c: real, y: real, x: real) {
    && m.n == Count(c, y, x)
    && m.x == SumX(c, y, x)
    && m.y == SumY(c, y, x)
    && m.xx == SumXX(c, y, x)
    && m.yy == SumYY(c, y, x)
    && m.xy == SumXY(c, y, x)
  }

  lemma SumsStep(c: real, y: real, x: real)
    ensures Count(c, y, x + 1.0) == Count(c, y, x) + 1.0
    ensures SumX(c, y, x + 1.0) == SumX(c, y, x) + x
    ensures SumY(c, y, x + 1.0) == SumY(c, y, x) + y
  {}

  lemma SquareSumsStep(c: real, y: real, x: real)
    ensures SumXX(c, y, x + 1.0) == SumXX(c, y, x) + x * x
    ensures SumYY(c, y, x + 1.0) == SumYY(c, y, x) + y * y
    ensures SumXY(c, y, x + 1.0) == SumXY(c, y, x) + x * y
  {}

  lemma ClosedStep(m: Moments, c: real, y: real, x: real, h: real)
    requires Closed(m, c, y, x)
    ensures Closed(AddPoint(m, x, y, h), c, y, x + 1.0)
  {
    hide Count, SumX, SumY, SumXX, SumYY, SumXY;
    SumsStep(c, y, x);
    SquareSumsStep(c, y, x);
  }

  lemma ClosedRow(c: real, y: real)
    ensures Count(c, y, c) == Count(c, y + 1.0, 0.0)
    ensures SumX(c, y, c) == SumX(c, y + 1.0, 0.0)
    ensures SumY(c, y, c) == SumY(c, y + 1.0, 0.0)
  {}

  lemma SquareClosedRow(c: real, y: real)
    ensures SumXX(c, y, c) == SumXX(c, y + 1.0, 0.0)
  {}

  lemma ColumnSquaresClosedRow(c: real, y: real)
    ensures SumYY(c, y, c) == SumYY(c, y + 1.0, 0.0)
  {}

  lemma CrossClosedRow(c: real, y: real)
    ensures SumXY(c, y, c) == SumXY(c, y + 1.0, 0.0)
  {}

  lemma {:induction false} MomentsAreClosed(z: Region, y: nat, x: nat)
    requires At(z, y, x)
    ensures Closed(MomentsTo(z, y, x), |z[0]| as real, y as real, x as real)
    decreases y, x
  {
    hide AddPoint, Count, SumX, SumY, SumXX, SumYY, SumXY;
    var c := |z[0]| as real;
    if x > 0 {
      MomentsAreClosed(z, y, x - 1);
      hide Closed;
      ClosedStep(MomentsTo(z, y, x - 1), c, y as real, (x - 1) as real, z[y][x - 1]);
    } else if y > 0 {
      MomentsAreClosed(z, y - 1, |z[0]|);
      ClosedRow(c, (y - 1) as real);
      SquareClosedRow(c, (y - 1) as real);
      ColumnSquaresClosedRow(c, (y - 1) as real);
      CrossClosedRow(c, (y - 1) as real);
    } else {
      ClosedNothing(c);
    }
  }

  lemma ClosedNothing(c: real)
    ensures Closed(Moments(0.0, 0.0, 0.0, 0.0, 0.0, 0.0, 0.0, 0.0, 0.0), c, 0.0, 0.0)
  {}

  /** The denominator of an r by c region: N * N * N * (r * r - 1) * (c * c - 1) / 144 with N == r * c. */
  function SizeDenominator(r: real, c: real): real {
    (r * c) * (r * c) * (r * c) * (r * r - 1.0) * (c * c - 1.0) / 144.0
  }

  /** `k` times `k` times the variance of 0, 1, ..., k - 1. */
  function Spread(k: real): real { k * Pyramid(k) - Triangle(k) * Triangle(k) }

  lemma SpreadIs(k: real)
    ensures Spread(k) == k * k * (k * k - 1.0) / 12.0
  {}

  lemma DeterminantFactors(r: real, c: real, tr: real, tc: real, pr: real, pc: real, sr: real, sc: real)
    requires sr == r * pr - tr * tr && sc == c * pc - tc * tc
    ensures Determinant(r * c, r * tc, c * tr, r * pc, c * pr, tc * tr) == r * c * (sr * sc)
  {
    assert Determinant(r * c, r * tc, c * tr, r * pc, c * pr, tc * tr)
        == r * c * ((r * pr - tr * tr) * (c * pc - tc * tc));
  }

  lemma SpreadsMultiply(r: real, c: real, sr: real, sc: real)
    requires sr == r * r * (r * r - 1.0) / 12.0 && sc == c * c * (c * c - 1.0) / 12.0
    ensures r * c * (sr * sc) == SizeDenominator(r, c)
  {}

  lemma SumsAtTheEnd(r: real, c: real)
    ensures Count(c, r, 0.0) == r * c && SumX(c, r, 0.0) == r * Triangle(c) && SumY(c, r, 0.0) == c * Triangle(r)
    ensures SumXX(c, r, 0.0) == r * Pyramid(c) && SumYY(c, r, 0.0) == c * Pyramid(r)
    ensures SumXY(c, r, 0.0) == Triangle(c) * Triangle(r)
  {
    assert Triangle(0.0) == 0.0 && Pyramid(0.0) == 0.0;
    hide Triangle, Pyramid;
  }

  lemma GridDeterminant(r: real, c: real)
    ensures Determinant(r * c, r * Triangle(c), c * Triangle(r), r * Pyramid(c), c * Pyramid(r),
                        Triangle(c) * Triangle(r)) == SizeDenominator(r, c)
  {
    SpreadIs(r);
    SpreadIs(c);
    SpreadsMultiply(r, c, Spread(r), Spread(c));
    DeterminantFactors(r, c, Triangle(r), Triangle(c), Pyramid(r), Pyramid(c), Spread(r), Spread(c));
    hide *;
  }

  lemma SumsDeterminant(r: real, c: real)
    ensures Determinant(Count(c, r, 0.0), SumX(c, r, 0.0), SumY(c, r, 0.0),
                        SumXX(c, r, 0.0), SumYY(c, r, 0.0), SumXY(c, r, 0.0)) == SizeDenominator(r, c)
  {
    hide *;
    SumsAtTheEnd(r, c);
    GridDeterminant(r, c);
  }

  /** The denominator that the loops accumulate depends on the size of the region alone. */
  lemma DenominatorClosedForm(z: Region)
    requires Grid(z)
    ensures Denominator(AllMoments(z)) == SizeDenominator(|z| as real, |z[0]| as real)
  {
    hide Determinant, Count, SumX, SumY, SumXX, SumYY, SumXY, SizeDenominator;
    MomentsAreClosed(z, |z|, 0);
    SumsDeterminant(|z| as real, |z[0]| as real);
  }

  lemma CubeIsLarge(r: real, c: real)
    requires r >= 2.0 && c >= 2.0
    ensures SizeDenominator(r, c) >= 1.0
  {
    AtLeastProduct(r, c, 2.0, 2.0);
    AtLeastProduct(r, r, 2.0, 2.0);
    AtLeastProduct(c, c, 2.0, 2.0);
    ProductIsLarge(r * c, r * r - 1.0, c * c - 1.0);
  }

  lemma ProductIsLarge(n: real, u: real, v: real)
    requires n >= 4.0 && u >= 3.0 && v >= 3.0
    ensures n * n * n * u * v / 144.0 >= 1.0
  {
    AtLeastProduct(n, n, 4.0, 4.0);
    AtLeastProduct(n * n, n, 16.0, 4.0);
    AtLeastProduct(u, v, 3.0, 3.0);
    AtLeastProduct(n * n * n, u * v, 64.0, 9.0);
  }

  lemma AtLeastProduct(a: real, b: real, p: real, q: real)
    requires a >= p >= 0.0 && b >= q >= 0.0
    ensures a * b >= p * q
  {
    assert (a - p) * b >= 0.0;
    assert p * (b - q) >= 0.0;
  }

  lemma ZeroFactors(n: real, u: real, v: real)
    requires u == 0.0 || v == 0.0
    ensures n * n * n * u * v / 144.0 == 0.0
  {}

  /** The plane branch is taken for exactly the regions with two rows and two columns. */
  lemma SolvableIffTwoByTwo(z: Region)
    requires Grid(z)
    ensures Solvable(AllMoments(z)) <==> |z| >= 2 && |z[0]| >= 2
  {
    var r, c := |z| as real, |z[0]| as real;
    DenominatorClosedForm(z);
    hide Denominator;
    if |z| >= 2 && |z[0]| >= 2 {
      CubeIsLarge(r, c);
    } else {
      assert r == 1.0 || c == 1.0;
      ZeroFactors(r * c, r * r - 1.0, c * c - 1.0);
    }
  }

  // ----- the loops

  lemma {:induction false} PixelCount(z: Region, y: nat, x: nat)
    requires At(z, y, x)
    ensures MomentsTo(z, y, x).n == (y * |z[0]| + x) as real
    decreases y, x
  {
    if x > 0 {
      PixelCount(z, y, x - 1);
    } else if y > 0 {
      PixelCount(z, y - 1, |z[0]|);
    }
  }

  method SumMoments(z: Region) returns (m: Moments)
    requires Grid(z)
    ensures m == AllMoments(z)
  {
    var rows, cols := |z|, |z[0]|;
    var sumX, sumY, sumZ := 0.0, 0.0, 0.0;
    var sumXX, sumYY, sumXY, sumXZ, sumYZ := 0.0, 0.0, 0.0, 0.0, 0.0;
    var y := 0;
    while y < rows
      invariant y <= rows
      invariant var s := MomentsTo(z, y, 0); Moments(s.n, sumX, sumY, sumZ, sumXX, sumYY, sumXY, sumXZ, sumYZ) == s
    {
      var x := 0;
      while x < cols
        invariant x <= cols
        invariant var s := MomentsTo(z, y, x); Moments(s.n, sumX, sumY, sumZ, sumXX, sumYY, sumXY, sumXZ, sumYZ) == s
      {
        var depth, fx, fy := z[y][x], x as real, y as real;
        sumX, sumY, sumZ := sumX + fx, sumY + fy, sumZ + depth;
        sumXX, sumYY, sumXY := sumXX + fx * fx, sumYY + fy * fy, sumXY + fx * fy;
        sumXZ, sumYZ := sumXZ + fx * depth, sumYZ + fy * depth;
        x := x + 1;
      }
      y := y + 1;
    }
    PixelCount(z, rows, 0);
    m := Moments((rows * cols) as real, sumX, sumY, sumZ, sumXX, sumYY, sumXY, sumXZ, sumYZ);
  }

  /** std::numeric_limits<float>::max(), from which the minimum starts. */
  const FLOAT_MAX: real := 340282346638528859811704183484516925440.0

  ghost function LeastTo(z: Region, p: Plane, y: nat, x: nat): real
    requires At(z, y, x)
    decreases y, x
  {
    if x > 0 then MinReal(LeastTo(z, p, y, x - 1), Residual(z, p, y, x - 1))
    else if y > 0 then LeastTo(z, p, y - 1, |z[0]|)
    else FLOAT_MAX
  }

  ghost function Least(z: Region, p: Plane): real
    requires Grid(z)
  {
    LeastTo(z, p, |z|, 0)
  }

  lemma ResidualParts(s: Residuals, x: real, y: real, r: real)
    ensures var t := AddResidual(s, x, y, r); t.r == s.r + r && t.rr == s.rr + r * r
  {}

  method SumResiduals(z: Region, p: Plane) returns (sum: real, squares: real, least: real)
    requires Grid(z)
    ensures sum == AllResiduals(z, p).r && squares == AllResiduals(z, p).rr && least == Least(z, p)
  {
    hide AddResidual, Plane.Height;
    var rows, cols := |z|, |z[0]|;
    sum, squares, least := 0.0, 0.0, FLOAT_MAX;
    var y := 0;
    while y < rows
      invariant y <= rows
      invariant var s := ResidualsTo(z, p, y, 0); sum == s.r && squares == s.rr && least == LeastTo(z, p, y, 0)
    {
      var x := 0;
      while x < cols
        invariant x <= cols
        invariant var s := ResidualsTo(z, p, y, x); sum == s.r && squares == s.rr && least == LeastTo(z, p, y, x)
      {
        var r := z[y][x] - p.Height(x as real, y as real);
        ResidualParts(ResidualsTo(z, p, y, x), x as real, y as real, r);
        sum := sum + r;
        if r < least {
          least := r;
        }
        squares := squares + r * r;
        x := x + 1;
      }
      y := y + 1;
    }
  }

  datatype DepthResidualStats = DepthResidualStats(mean: real, least: real, std: real)

  function Summary(n: real, sum: real, squares: real, least: real, sqrt: real -> real): DepthResidualStats
    requires n != 0.0
  {
    DepthResidualStats(sum / n, least, sqrt(MaxReal(0.0, Variance(n, sum, squares))))
  }

  /** The statistics of the residuals of `p` over a region with pixels. */
  ghost function Statistics(z: Region, p: Plane, sqrt: real -> real): DepthResidualStats
    requires Grid(z)
  {
    var n, s := AllMoments(z).n, AllResiduals(z, p);
    PixelCount(z, |z|, 0);
    assert n != 0.0 by { CountIsPositive(|z|, |z[0]|); }
    Summary(n, s.r, s.rr, Least(z, p), sqrt)
  }

  lemma CountIsPositive(rows: nat, cols: nat)
    requires rows > 0 && cols > 0
    ensures (rows * cols) as real > 0.0
  {
    assert rows * cols > 0;
  }

  lemma PixelsExist(z: Region)
    requires Grid(z)
    ensures AllMoments(z).n > 0.0
  {
    PixelCount(z, |z|, 0);
    CountIsPositive(|z|, |z[0]|);
  }

  predicate Rectangular(z: Region) {
    forall y :: 0 <= y < |z| ==> |z[y]| == |z[0]|
  }

  method ComputeDepthResiduals(z: Region, sqrt: real -> real) returns (stats: DepthResidualStats)
    requires Rectangular(z)
    ensures !Grid(z) ==> stats == DepthResidualStats(0.0, 0.0, 0.0)
    ensures Grid(z) ==> AllMoments(z).n != 0.0 && stats == Statistics(z, Fit(AllMoments(z)), sqrt)
  {
    if |z| == 0 || |z[0]| == 0 {
      return DepthResidualStats(0.0, 0.0, 0.0);
    }
    var m := SumMoments(z);
    PixelsExist(z);
    var a, b, c := 0.0, 0.0, 0.0;
    var denom := m.xx * m.yy * m.n + 2.0 * m.x * m.y * m.xy - m.xx * m.y * m.y - m.yy * m.x * m.x - m.xy * m.xy * m.n;
    assert denom == Denominator(m);
    hide Denominator;
    if denom > DENOM_EPSILON || -denom > DENOM_EPSILON {
      a := NumeratorA(m) / denom;
      b := NumeratorB(m) / denom;
      c := (m.z - a * m.x - b * m.y) / m.n;
    }
    assert Plane(a, b, c) == Fit(m);
    hide Fit, NumeratorA, NumeratorB, AllMoments, AllResiduals, Least;
    var mean, squares, least := SumResiduals(z, Plane(a, b, c));
    ghost var sum, total := mean, squares;
    mean := mean / m.n;
    squares := squares / m.n - mean * mean;
    stats := DepthResidualStats(mean, least, sqrt(MaxReal(0.0, squares)));
    assert mean == sum / m.n && squares == Variance(m.n, sum, total);
  }

  datatype DepthGeometryMetrics = DepthGeometryMetrics(depression: real, roughness: real)

  function ComputeGeometryMetrics(z: Region, stats: DepthResidualStats): DepthGeometryMetrics {
    if |z| == 0 || |z[0]| == 0 then DepthGeometryMetrics(0.0, 0.0)
    else DepthGeometryMetrics(MaxReal(0.0, -stats.least), stats.std)
  }

  // ----- what the statistics mean

  /** The minimum is below every residual passed, and is one of them unless all exceed the largest float. */
  lemma {:induction false} LeastBounds(z: Region, p: Plane, y: nat, x: nat, py: nat, px: nat)
    requires At(z, y, x) && px < |z[0]| && (py < y || (py == y && px < x))
    ensures LeastTo(z, p, y, x) <= Residual(z, p, py, px)
    decreases y, x
  {
    hide Residual;
    if x > 0 {
      if py < y || px < x - 1 {
        LeastBounds(z, p, y, x - 1, py, px);
      }
    } else {
      LeastBounds(z, p, y - 1, |z[0]|, py, px);
    }
  }

  /** A sum of residuals is at least each of them when none is negative. */
  lemma {:induction false} SumDominates(z: Region, p: Plane, y: nat, x: nat, py: nat, px: nat)
    requires At(z, y, x) && px < |z[0]| && (py < y || (py == y && px < x))
    requires LeastTo(z, p, y, x) >= 0.0
    ensures ResidualsTo(z, p, y, x).r >= Residual(z, p, py, px)
    decreases y, x
  {
    hide Residual;
    if x > 0 {
      SumNonnegative(z, p, y, x - 1);
      if py < y || px < x - 1 {
        SumDominates(z, p, y, x - 1, py, px);
      }
    } else {
      SumDominates(z, p, y - 1, |z[0]|, py, px);
    }
  }

  lemma {:induction false} SumNonnegative(z: Region, p: Plane, y: nat, x: nat)
    requires At(z, y, x) && LeastTo(z, p, y, x) >= 0.0
    ensures ResidualsTo(z, p, y, x).r >= 0.0
    decreases y, x
  {
    hide Residual;
    if x > 0 {
      SumNonnegative(z, p, y, x - 1);
    } else if y > 0 {
      SumNonnegative(z, p, y - 1, |z[0]|);
    }
  }

  /** Every pixel lies on `p`. */
  ghost predicate LiesOn(z: Region, p: Plane)
    requires Grid(z)
  {
    forall y: nat, x: nat :: y < |z| && x < |z[0]| ==> Residual(z, p, y, x) == 0.0
  }

  lemma {:induction false} NoResiduals(z: Region, p: Plane, y: nat, x: nat)
    requires At(z, y, x) && LiesOn(z, p)
    ensures ResidualsTo(z, p, y, x) == Residuals(0.0, 0.0, 0.0, 0.0)
    ensures LeastTo(z, p, y, x) == if x == 0 && y == 0 then FLOAT_MAX else 0.0
    decreases y, x
  {
    if x > 0 {
      assert Residual(z, p, y, x - 1) == 0.0;
      hide Residual, LiesOn;
      NoResiduals(z, p, y, x - 1);
    } else if y > 0 {
      NoResiduals(z, p, y - 1, |z[0]|);
    }
  }

  /** The plane of a region with two rows and two columns: the unique least-squares plane. */
  lemma FitIsLeastSquares(z: Region, q: Plane)
    requires Grid(z) && |z| >= 2 && |z[0]| >= 2
    ensures AllMoments(z).n != 0.0
    ensures AllResiduals(z, Fit(AllMoments(z))).rr <= AllResiduals(z, q).rr
    ensures AllResiduals(z, q).rr <= AllResiduals(z, Fit(AllMoments(z))).rr ==> q == Fit(AllMoments(z))
  {
    hide Normal, Solvable, Fit, AllResiduals, AllMoments;
    PixelsExist(z);
    SolvableIffTwoByTwo(z);
    FitIsNormal(AllMoments(z));
    var p := Fit(AllMoments(z));
    OrthogonalIsLeast(z, p, q);
    if AllResiduals(z, q).rr <= AllResiduals(z, p).rr {
      OrthogonalIsUnique(z, p, q);
    }
  }

  /** Residuals of the fitted plane average to zero, so some are not positive. */
  lemma FitBalances(z: Region)
    requires Grid(z) && |z| >= 2 && |z[0]| >= 2
    ensures AllMoments(z).n != 0.0
    ensures var s := AllResiduals(z, Fit(AllMoments(z))); s.r == 0.0 && s.xr == 0.0 && s.yr == 0.0
    ensures Least(z, Fit(AllMoments(z))) <= 0.0
  {
    hide Normal, Solvable, Fit, AllMoments;
    PixelsExist(z);
    SolvableIffTwoByTwo(z);
    FitIsNormal(AllMoments(z));
    var p := Fit(AllMoments(z));
    NormalMeansOrthogonal(z, p);
    if Least(z, p) > 0.0 {
      SumDominates(z, p, |z|, 0, 0, 0);
      LeastBounds(z, p, |z|, 0, 0, 0);
    }
  }

  /**
   * With two rows and two columns the depression is zero exactly for the regions that are planes,
   * and then the spread under the root is zero too.
   */
  lemma DepressionZeroIffPlane(z: Region, sqrt: real -> real)
    requires Grid(z) && |z| >= 2 && |z[0]| >= 2
    ensures AllMoments(z).n != 0.0
    ensures var stats := Statistics(z, Fit(AllMoments(z)), sqrt);
            && stats.mean == 0.0
            && (ComputeGeometryMetrics(z, stats).depression == 0.0 <==> exists q: Plane :: LiesOn(z, q))
            && (ComputeGeometryMetrics(z, stats).depression == 0.0 ==>
                  ComputeGeometryMetrics(z, stats).roughness == sqrt(0.0))
  {
    PixelsExist(z);
    FitBalances(z);
    var p := Fit(AllMoments(z));
    hide Normal, Solvable, Fit, AllMoments;
    if Least(z, p) >= 0.0 {
      forall y: nat, x: nat | y < |z| && x < |z[0]| ensures Residual(z, p, y, x) == 0.0 {
        SumDominates(z, p, |z|, 0, y, x);
        LeastBounds(z, p, |z|, 0, y, x);
      }
      assert LiesOn(z, p);
      NoResiduals(z, p, |z|, 0);
    }
    forall q: Plane | LiesOn(z, q) ensures Least(z, p) == 0.0 {
      NoResiduals(z, q, |z|, 0);
      ResidualsSpread(z, p, |z|, 0);
      FitIsLeastSquares(z, q);
    }
  }

  /** The clamp under the square root never changes a variance of residuals, whatever the plane. */
  lemma VarianceNeedsNoClamp(z: Region, p: Plane)
    requires Grid(z)
    ensures var s, n := AllResiduals(z, p), AllMoments(z).n; n > 0.0 && Variance(n, s.r, s.rr) >= 0.0
  {
    PixelsExist(z);
    ResidualsSpread(z, p, |z|, 0);
    hide AllResiduals, AllMoments;
    VarianceIsNonnegative(AllMoments(z).n, AllResiduals(z, p).r, AllResiduals(z, p).rr);
  }

  lemma {:induction false} ResidualsSpread(z: Region, p: Plane, y: nat, x: nat)
    requires At(z, y, x)
    ensures var s, n := ResidualsTo(z, p, y, x), MomentsTo(z, y, x).n;
            CauchyHolds(n, s.r, s.rr)
    decreases y, x
  {
    hide Residual, AddResidual;
    if x > 0 {
      ResidualsSpread(z, p, y, x - 1);
      var s, m, r := ResidualsTo(z, p, y, x - 1), MomentsTo(z, y, x - 1), Residual(z, p, y, x - 1);
      assert MomentsTo(z, y, x).n == m.n + 1.0;
      hide AddPoint, CauchyHolds;
      ResidualParts(s, (x - 1) as real, y as real, r);
      CauchyStep(m.n, s.r, s.rr, r);
    } else if y > 0 {
      ResidualsSpread(z, p, y - 1, |z[0]|);
    }
  }

  /** A single row or column gets the zero plane, so its statistics are those of the depths themselves. */
  lemma {:induction false} LinesAreNotFitted(z: Region, y: nat, x: nat)
    requires Grid(z) && (|z| == 1 || |z[0]| == 1) && y < |z| && x < |z[0]|
    ensures AllMoments(z).n != 0.0 && Fit(AllMoments(z)) == Plane(0.0, 0.0, 0.0)
    ensures Residual(z, Fit(AllMoments(z)), y, x) == z[y][x]
  {
    PixelsExist(z);
    SolvableIffTwoByTwo(z);
    hide Solvable, AllMoments;
  }

  // ----- regions that are planes

  /** A root, as far as the roughness of a plane depends on it. */
  ghost predicate ZeroOnlyAtZero(sqrt: real -> real) {
    forall v: real :: v >= 0.0 ==> (sqrt(v) == 0.0 <==> v == 0.0)
  }

  /** All residuals of `p` are the same. */
  ghost predicate Level(z: Region, p: Plane, c: real)
    requires Grid(z)
  {
    forall y: nat, x: nat :: y < |z| && x < |z[0]| ==> Residual(z, p, y, x) == c
  }

  lemma {:induction false} LevelSums(z: Region, p: Plane, c: real, y: nat, x: nat)
    requires At(z, y, x) && Level(z, p, c)
    ensures var s := ResidualsTo(z, p, y, x); Repeats(MomentsTo(z, y, x).n, s.r, s.rr, c)
    decreases y, x
  {
    hide AddResidual, Repeats;
    if x > 0 {
      assert Residual(z, p, y, x - 1) == c;
      hide Residual, Level;
      LevelSums(z, p, c, y, x - 1);
      var s, n := ResidualsTo(z, p, y, x - 1), MomentsTo(z, y, x - 1).n;
      assert MomentsTo(z, y, x).n == n + 1.0;
      hide AddPoint;
      ResidualParts(s, (x - 1) as real, y as real, c);
      RepeatsStep(n, s.r, s.rr, c);
    } else if y > 0 {
      LevelSums(z, p, c, y - 1, |z[0]|);
    } else {
      RepeatsNothing(c);
    }
  }

  lemma {:induction false} TightMeansLevel(z: Region, p: Plane, c: real, y: nat, x: nat, py: nat, px: nat)
    requires At(z, y, x) && px < |z[0]| && (py < y || (py == y && px < x))
    requires var s, n := ResidualsTo(z, p, y, x), MomentsTo(z, y, x).n; Tight(n, s.r, s.rr) && IsMean(n, s.r, c)
    ensures Residual(z, p, py, px) == c
    decreases y, x
  {
    hide Residual, AddResidual, Tight, IsMean, CauchyHolds;
    if x > 0 {
      var s, m, v := ResidualsTo(z, p, y, x - 1), MomentsTo(z, y, x - 1), Residual(z, p, y, x - 1);
      assert MomentsTo(z, y, x).n == m.n + 1.0;
      hide AddPoint;
      ResidualParts(s, (x - 1) as real, y as real, v);
      PixelCount(z, y, x - 1);
      ResidualsSpread(z, p, y, x - 1);
      if y == 0 && x == 1 {
        TightOne(v, c);
      } else {
        CountIsOne(y, |z[0]|, x - 1);
        TightStep(m.n, s.r, s.rr, v, c, ResidualsTo(z, p, y, x).r, ResidualsTo(z, p, y, x).rr);
        if py < y || px < x - 1 {
          TightMeansLevel(z, p, c, y, x - 1, py, px);
        }
      }
    } else {
      TightMeansLevel(z, p, c, y - 1, |z[0]|, py, px);
    }
  }

  lemma CountIsOne(y: nat, c: nat, x: nat)
    requires c > 0 && (y > 0 || x > 0)
    ensures (y * c + x) as real >= 1.0
  {
    if y > 0 {
      assert y * c >= 1;
    }
  }

  /** Residuals do not vary exactly when they are all the same. */
  lemma VarianceZeroIffLevel(z: Region, p: Plane)
    requires Grid(z)
    ensures var s, n := AllResiduals(z, p), AllMoments(z).n;
            n > 0.0 && (Variance(n, s.r, s.rr) == 0.0 <==> exists c: real :: Level(z, p, c))
  {
    PixelsExist(z);
    var s, n := AllResiduals(z, p), AllMoments(z).n;
    hide Variance, Tight, IsMean, Repeats, Residual;
    if Variance(n, s.r, s.rr) == 0.0 {
      ZeroVarianceIsTight(n, s.r, s.rr);
      forall y: nat, x: nat | y < |z| && x < |z[0]| ensures Residual(z, p, y, x) == s.r / n {
        TightMeansLevel(z, p, s.r / n, |z|, 0, y, x);
      }
      assert Level(z, p, s.r / n);
    }
    forall c: real | Level(z, p, c) ensures Variance(n, s.r, s.rr) == 0.0 {
      LevelSums(z, p, c, |z|, 0);
      ConstantVariance(n, s.r, s.rr, c);
    }
  }

  lemma RoughnessZeroIffLevel(z: Region, p: Plane, sqrt: real -> real)
    requires Grid(z) && ZeroOnlyAtZero(sqrt)
    ensures Statistics(z, p, sqrt).std == 0.0 <==> exists c: real :: Level(z, p, c)
  {
    VarianceZeroIffLevel(z, p);
    VarianceNeedsNoClamp(z, p);
    hide Variance, Level, AllMoments, AllResiduals;
  }

  /** The metrics the detector computes for a region. */
  ghost function MetricsOf(z: Region, sqrt: real -> real): DepthGeometryMetrics
    requires Grid(z)
  {
    PixelsExist(z);
    ComputeGeometryMetrics(z, Statistics(z, Fit(AllMoments(z)), sqrt))
  }

  ghost predicate NoNegativeDepth(z: Region)
    requires Grid(z)
  {
    forall y: nat, x: nat :: y < |z| && x < |z[0]| ==> z[y][x] >= 0.0
  }

  ghost predicate OneDepth(z: Region, c: real)
    requires Grid(z)
  {
    forall y: nat, x: nat :: y < |z| && x < |z[0]| ==> z[y][x] == c
  }

  lemma {:induction false} LeastAtLeast(z: Region, p: Plane, y: nat, x: nat)
    requires At(z, y, x)
    requires forall py: nat, px: nat :: py < |z| && px < |z[0]| ==> Residual(z, p, py, px) >= 0.0
    ensures LeastTo(z, p, y, x) >= 0.0
    decreases y, x
  {
    if x > 0 {
      assert Residual(z, p, y, x - 1) >= 0.0;
      hide Residual;
      LeastAtLeast(z, p, y, x - 1);
    } else if y > 0 {
      LeastAtLeast(z, p, y - 1, |z[0]|);
    }
  }

  /** A single row or column shows a depression for a negative depth and roughness for unequal depths. */
  lemma LineMetricsIff(z: Region, sqrt: real -> real)
    requires Grid(z) && (|z| == 1 || |z[0]| == 1) && ZeroOnlyAtZero(sqrt)
    ensures MetricsOf(z, sqrt).depression == 0.0 <==> NoNegativeDepth(z)
    ensures MetricsOf(z, sqrt).roughness == 0.0 <==> exists c: real :: OneDepth(z, c)
  {
    PixelsExist(z);
    var p := Plane(0.0, 0.0, 0.0);
    forall y: nat, x: nat | y < |z| && x < |z[0]|
      ensures Fit(AllMoments(z)) == p && Residual(z, p, y, x) == z[y][x]
    {
      LinesAreNotFitted(z, y, x);
    }
    var corner := Residual(z, p, 0, 0);
    RoughnessZeroIffLevel(z, p, sqrt);
    hide Fit, AllMoments, AllResiduals, Residual, ZeroOnlyAtZero;
    if NoNegativeDepth(z) {
      LeastAtLeast(z, p, |z|, 0);
    } else {
      var y: nat, x: nat :| y < |z| && x < |z[0]| && z[y][x] < 0.0;
      LeastBounds(z, p, |z|, 0, y, x);
    }
    assert forall c: real :: Level(z, p, c) <==> OneDepth(z, c);
    hide Level, OneDepth;
  }

  /**
   * For the regions that lie on a plane: the depression is zero exactly with two rows and two
   * columns or without negative depths, and the roughness exactly with two rows and two columns
   * or with equal depths.
   */
  lemma PlanarMetricsIff(z: Region, q: Plane, sqrt: real -> real)
    requires Grid(z) && LiesOn(z, q) && ZeroOnlyAtZero(sqrt)
    ensures MetricsOf(z, sqrt).depression == 0.0 <==> (|z| >= 2 && |z[0]| >= 2) || NoNegativeDepth(z)
    ensures MetricsOf(z, sqrt).roughness == 0.0 <==> (|z| >= 2 && |z[0]| >= 2) || exists c: real :: OneDepth(z, c)
  {
    if |z| >= 2 && |z[0]| >= 2 {
      DepressionZeroIffPlane(z, sqrt);
    } else {
      LineMetricsIff(z, sqrt);
    }
  }

  /** Any single pixel of negative depth lies on a plane and shows a depression. */
  lemma PitShowsDepression(z: Region, depth: real, sqrt: real -> real)
    requires z == [[depth]] && depth < 0.0 && ZeroOnlyAtZero(sqrt)
    ensures LiesOn(z, Plane(0.0, 0.0, depth)) && MetricsOf(z, sqrt).depression != 0.0
  {
    assert z[0][0] < 0.0 && !NoNegativeDepth(z);
    LineMetricsIff(z, sqrt);
    hide MetricsOf, ZeroOnlyAtZero;
  }

  /** Any row of two unequal depths, such as 0 and 1, lies on a plane and shows roughness. */
  lemma RampShowsRoughness(z: Region, from: real, to: real, sqrt: real -> real)
    requires z == [[from, to]] && from != to && ZeroOnlyAtZero(sqrt)
    ensures LiesOn(z, Plane(to - from, 0.0, from)) && MetricsOf(z, sqrt).roughness != 0.0
  {
    LineMetricsIff(z, sqrt);
    assert z[0][0] == from && z[0][1] == to;
    assert forall c: real :: !OneDepth(z, c);
    hide MetricsOf, ZeroOnlyAtZero;
    var p := Plane(to - from, 0.0, from);
    forall y: nat, x: nat | y < |z| && x < |z[0]| ensures Residual(z, p, y, x) == 0.0 {
      assert x == 0 || x == 1;
    }
  }
}
