/** Names shared by every module of the model. */
module Common {
  /** An unsigned eight-bit value; arithmetic that may leave the range is written with `% 256`. */
  type byte = b: int | 0 <= b < 256

  const TWO32: int := 0x1_0000_0000
  const TWO64: int := 0x1_0000_0000_0000_0000

  datatype Option<+T> = None | Some(value: T)

  function Min(a: int, b: int): int { if a <= b then a else b }
  function Max(a: int, b: int): int { if a <= b then b else a }

  function MinReal(a: real, b: real): real { if a <= b then a else b }
  function MaxReal(a: real, b: real): real { if a <= b then b else a }

  /** The sequences of `parts`, one after the other. */
  function Flatten<T>(parts: seq<seq<T>>): seq<T> {
    if parts == [] then [] else Flatten(parts[..|parts| - 1]) + parts[|parts| - 1]
  }

  lemma FlattenSnoc<T>(parts: seq<seq<T>>, last: seq<T>)
    ensures Flatten(parts + [last]) == Flatten(parts) + last
  {
    assert (parts + [last])[..|parts|] == parts;
  }

  // ----- sums of squares

  /** `sum` and `squares` may be the sum and the sum of squares of `n` real numbers. */
  predicate CauchyHolds(n: real, sum: real, squares: real) {
    n >= 0.0 && squares >= 0.0 && n * squares >= sum * sum
  }

  lemma PositiveProduct(k: real, v: real, product: real)
    requires k > 0.0 && v > 0.0 && product == k * v
    ensures product > 0.0
  {}

  lemma NegativeProduct(k: real, v: real, product: real)
    requires k > 0.0 && v < 0.0 && product == k * v
    ensures product < 0.0
  {}

  lemma NonnegativeProduct(k: real, v: real, product: real)
    requires k >= 0.0 && v >= 0.0 && product == k * v
    ensures product >= 0.0
  {}

  lemma SquareIsZero(v: real, square: real)
    requires square == v * v && square <= 0.0
    ensures v == 0.0
  {
    if v < 0.0 {
      NegativeProduct(-v, v, -square);
    } else if v > 0.0 {
      PositiveProduct(v, v, square);
    }
  }

  lemma Cancel(k: real, u: real, v: real)
    requires k != 0.0 && k * u == k * v
    ensures u == v
  {
    assert k * (u - v) == 0.0;
  }

  lemma SameMultiple(n: real, u: real, v: real)
    requires n > 0.0 && n * u == n * v
    ensures u == v
  {
    if u < v {
      PositiveProduct(n, v - u, n * (v - u));
    } else if u > v {
      PositiveProduct(n, u - v, n * (u - v));
    }
  }

  /** One more value keeps the square of the sum within the count times the sum of squares. */
  lemma CauchyStep(n: real, sum: real, squares: real, v: real)
    requires CauchyHolds(n, sum, squares)
    ensures CauchyHolds(n + 1.0, sum + v, squares + v * v)
  {
    var d := sum - n * v;
    assert v * v >= 0.0 && d * d >= 0.0;
    if n > 0.0 {
      assert d * d == sum * sum - 2.0 * (n * (sum * v)) + n * n * (v * v);
      CrossIsBounded(n, sum * v, squares, v * v, sum * sum, d * d);
    } else {
      SquareIsZero(sum, sum * sum);
    }
  }

  lemma CrossIsBounded(n: real, cross: real, squares: real, vv: real, ss: real, dd: real)
    requires n > 0.0 && n * squares >= ss && dd >= 0.0 && dd == ss - 2.0 * (n * cross) + n * n * vv
    ensures squares + n * vv - 2.0 * cross >= 0.0
  {
    var gap := squares + n * vv - 2.0 * cross;
    assert n * gap == n * squares + n * n * vv - 2.0 * (n * cross);
    if gap < 0.0 {
      NegativeProduct(n, gap, n * gap);
    }
  }

  function Variance(n: real, sum: real, squares: real): real
    requires n != 0.0
  {
    squares / n - (sum / n) * (sum / n)
  }

  lemma VarianceIsNonnegative(n: real, sum: real, squares: real)
    requires n > 0.0 && CauchyHolds(n, sum, squares)
    ensures Variance(n, sum, squares) >= 0.0
  {
    var mean, meanSquare := sum / n, squares / n;
    assert mean * n == sum && meanSquare * n == squares;
    VarianceIsScaled(n, mean, meanSquare, sum, squares);
  }

  lemma VarianceIsScaled(n: real, mean: real, meanSquare: real, sum: real, squares: real)
    requires n > 0.0 && mean * n == sum && meanSquare * n == squares && n * squares >= sum * sum
    ensures meanSquare - mean * mean >= 0.0
  {
    var v := meanSquare - mean * mean;
    assert n * squares == n * n * meanSquare;
    assert sum * sum == n * n * (mean * mean);
    assert n * n * v == n * squares - sum * sum;
    if v < 0.0 {
      NegativeProduct(n, v, n * v);
      NegativeProduct(n, n * v, n * n * v);
    }
  }

  /** The bound on the square of the sum is met with equality. */
  predicate Tight(n: real, sum: real, squares: real) { n * squares == sum * sum }

  predicate IsMean(n: real, sum: real, c: real) { sum == n * c }

  /** The sum and the sum of squares of `n` copies of `c`. */
  predicate Repeats(n: real, sum: real, squares: real, c: real) { sum == n * c && squares == n * (c * c) }

  lemma RepeatsStep(n: real, sum: real, squares: real, c: real)
    requires Repeats(n, sum, squares, c)
    ensures Repeats(n + 1.0, sum + c, squares + c * c, c)
  {}

  lemma RepeatsNothing(c: real)
    ensures Repeats(0.0, 0.0, 0.0, c)
  {}

  lemma TightOne(v: real, c: real)
    requires IsMean(1.0, v, c)
    ensures v == c
  {}

  lemma TightStep(n: real, s: real, q: real, v: real, c: real, sum: real, squares: real)
    requires n >= 1.0 && CauchyHolds(n, s, q) && sum == s + v && squares == q + v * v
    requires Tight(n + 1.0, sum, squares) && IsMean(n + 1.0, sum, c)
    ensures v == c && Tight(n, s, q) && IsMean(n, s, c)
  {
    var gap, off, cross := n * q - s * s, s - n * v, q + n * (v * v) - 2.0 * (s * v);
    assert gap + cross == 0.0;
    assert n * cross == gap + off * off;
    GapsCancel(n, gap, cross, off, off * off);
    SameMultiple(n + 1.0, v, c);
  }

  lemma GapsCancel(n: real, gap: real, cross: real, off: real, square: real)
    requires n >= 1.0 && gap >= 0.0 && gap + cross == 0.0 && n * cross == gap + square && square == off * off
    ensures gap == 0.0 && off == 0.0
  {
    NonnegativeProduct(n, gap, n * gap);
    if off < 0.0 {
      PositiveProduct(-off, -off, square);
    } else if off > 0.0 {
      PositiveProduct(off, off, square);
    }
  }

  lemma ZeroVarianceIsTight(n: real, sum: real, squares: real)
    requires n > 0.0 && Variance(n, sum, squares) == 0.0
    ensures Tight(n, sum, squares) && IsMean(n, sum, sum / n)
  {
    var mean, meanSquare := sum / n, squares / n;
    assert mean * n == sum && meanSquare * n == squares;
    assert n * (mean * mean * n) == (mean * n) * (mean * n);
  }

  lemma ConstantVariance(n: real, sum: real, squares: real, c: real)
    requires n > 0.0 && Repeats(n, sum, squares, c)
    ensures Variance(n, sum, squares) == 0.0
  {
    var mean, meanSquare := sum / n, squares / n;
    assert mean * n == sum && meanSquare * n == squares;
    SameMultiple(n, mean, c);
    SameMultiple(n, meanSquare, c * c);
  }

  // ----- words and floats on the wire

  function LittleEndian(s: seq<byte>): nat {
    if s == [] then 0 else s[0] as nat + 256 * LittleEndian(s[1..])
  }

  /** `m` times two to the `e`. */
  function TimesPowerOfTwo(m: real, e: int): real
    decreases if e < 0 then -e else e
  {
    if e == 0 then m else if e > 0 then TimesPowerOfTwo(2.0 * m, e - 1) else TimesPowerOfTwo(m / 2.0, e + 1)
  }

  /** The value of an IEEE 754 word with that many fractions and exponents; None for infinities and NaN. */
  function FloatValue(bits: nat, fractions: nat, exponents: nat, scale: int): Option<real>
    requires fractions > 0 && exponents > 0
  {
    var sign := if bits / fractions / exponents % 2 == 1 then -1.0 else 1.0;
    var exponent, fraction := bits / fractions % exponents, bits % fractions;
    if exponent == exponents - 1 then None
    else if exponent == 0 then Some(sign * TimesPowerOfTwo(fraction as real, 1 - scale))
    else Some(sign * TimesPowerOfTwo((fractions + fraction) as real, exponent - scale))
  }

  function Float32(bits: nat): Option<real> { FloatValue(bits, 0x80_0000, 256, 150) }

  function Float64(bits: nat): Option<real> { FloatValue(bits, 0x10_0000_0000_0000, 2048, 1075) }
}
