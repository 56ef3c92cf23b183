/**
 The Wilson score interval of a success rate, over exact reals. A square root is passed in
 by its defining property.
 */
module Wilson {

  datatype Interval = Interval(low: real, high: real)

  predicate IsRoot(root: real, x: real) {
    root >= 0.0 && root * root == x
  }

  function Rate(k: nat, n: nat): real
    requires n > 0
  {
    k as real / n as real
  }

  function Denominator(n: nat, z: real): real
    requires n > 0
  {
    1.0 + z * z / n as real
  }

  function Centre(k: nat, n: nat, z: real): real
    requires n > 0
  {
    Rate(k, n) + z * z / (2.0 * n as real)
  }

  function Radicand(k: nat, n: nat, z: real): real
    requires n > 0
  {
    var p := Rate(k, n);
    p * (1.0 - p) / n as real + z * z / (4.0 * n as real * n as real)
  }

  /** The bounds before they are clamped to [0, 1]. */
  function Bounds(k: nat, n: nat, z: real, root: real): Interval
    requires n > 0 && Denominator(n, z) != 0.0
  {
    var centre, margin, denominator := Centre(k, n, z), z * root, Denominator(n, z);
    Interval((centre - margin) / denominator, (centre + margin) / denominator)
  }

  function Max(a: real, b: real): real {
    if a >= b then a else b
  }

  function Min(a: real, b: real): real {
    if a <= b then a else b
  }

  lemma Positive(n: nat, z: real)
    requires n > 0
    ensures z * z / n as real >= 0.0 && Denominator(n, z) >= 1.0
  {
    Squares(z);
    QuotientSign(z * z, n as real);
  }

  lemma Squares(z: real)
    ensures z * z >= 0.0
  {
  }

  /** Scaling by a positive number keeps the order. */
  lemma Scaled(x: real, y: real, d: real)
    requires d > 0.0
    ensures x * d <= y * d <==> x <= y
  {
  }

  lemma QuotientSign(x: real, y: real)
    requires x >= 0.0 && y > 0.0
    ensures x / y >= 0.0
  {
    assert x / y * y == x;
    Scaled(0.0, x / y, y);
  }

  /** `wilsonInterval`. */
  function Wilson(k: nat, n: nat, z: real, root: real): (r: Interval)
  {
    if n == 0 then Interval(0.0, 1.0)
    else
      assert Denominator(n, z) != 0.0 by { Positive(n, z); }
      var b := Bounds(k, n, z, root);
      Interval(Max(0.0, b.low), Min(1.0, b.high))
  }

  // ----- with the shares written as variables -----

  /** `t` is z²/n and `s` the margin: the bounds are the roots of one quadratic in the true rate. */
  ghost predicate Shape(p: real, t: real, s: real, b: Interval) {
    && 0.0 <= p <= 1.0 && t >= 0.0
    && s * s == t * p * (1.0 - p) + t * t / 4.0
    && b.low * (1.0 + t) == p + t / 2.0 - s
    && b.high * (1.0 + t) == p + t / 2.0 + s
  }

  lemma QuotientIs(x: real, d: real, q: real)
    requires d > 0.0 && q * d == x
    ensures x / d == q
  {
    Scaled(x / d, q, d);
    Scaled(q, x / d, d);
  }

  lemma ProductIsPositive(m: real, n: real, d: real)
    requires m > 0.0 && n > 0.0 && d == m * n
    ensures d > 0.0
  {
    Scaled(m, 0.0, n);
  }

  lemma QuarterIs(x: real, n: real, q: real)
    requires n > 0.0 && q * 4.0 * n * n == x
    ensures x / (4.0 * n * n) == q
  {
    var m := 4.0 * n;
    var d := m * n;
    ProductIsPositive(m, n, d);
    assert q * d == x;
    QuotientIs(x, d, q);
  }

  lemma ShareOf(x: real, n: real)
    requires n > 0.0
    ensures x / (2.0 * n) == x / n / 2.0
    ensures x / (4.0 * n * n) == x / n / n / 4.0
  {
    var q := x / n;
    assert q * n == x;
    QuotientIs(x, 2.0 * n, q / 2.0);
    var v := q / n;
    assert v * n == q;
    var w := v / 4.0;
    assert w * 4.0 * n * n == v * n * n == q * n == x;
    QuarterIs(x, n, w);
  }

  lemma RateIsShare(k: nat, n: nat)
    requires 0 < n && k <= n
    ensures 0.0 <= Rate(k, n) <= 1.0
  {
    var p, m := Rate(k, n), n as real;
    assert p * m == k as real;
    Scaled(0.0, p, m);
    Scaled(p, 1.0, m);
  }

  lemma SquareOfProduct(z: real, root: real, x: real, m: real)
    requires m > 0.0 && root * root == x / m + z * z / m / m / 4.0
    ensures var t := z * z / m;
            (z * root) * (z * root) == t * x + t * t / 4.0
  {
    var t := z * z / m;
    var u, v := x / m, t / m;
    assert u * m == x && v * m == t && t * m == z * z;
    calc {
      (z * root) * (z * root);
      (z * z) * (root * root);
      (t * m) * (u + v / 4.0);
      t * (m * u) + t * (m * v) / 4.0;
      t * x + t * t / 4.0;
    }
  }

  lemma BoundsShape(k: nat, n: nat, z: real, root: real)
    requires 0 < n && k <= n && IsRoot(root, Radicand(k, n, z))
    ensures Denominator(n, z) >= 1.0
    ensures Shape(Rate(k, n), z * z / n as real, z * root, Bounds(k, n, z, root))
  {
    var p, m, t := Rate(k, n), n as real, z * z / n as real;
    Positive(n, z);
    RateIsShare(k, n);
    ShareOf(z * z, m);
    SquareOfProduct(z, root, p * (1.0 - p), m);
    assert t * (p * (1.0 - p)) == t * p * (1.0 - p);
    var b, d := Bounds(k, n, z, root), Denominator(n, z);
    Undivide(Centre(k, n, z) - z * root, d);
    Undivide(Centre(k, n, z) + z * root, d);
  }

  lemma Undivide(x: real, d: real)
    requires d != 0.0
    ensures x / d * d == x
  {
  }

  lemma ProductOfBounds(p: real, t: real, s: real, b: Interval)
    requires Shape(p, t, s, b)
    ensures (1.0 + t) * (b.low * b.high) == p * p
  {
    var d, c := 1.0 + t, p + t / 2.0;
    calc {
      d * (d * (b.low * b.high));
      (b.low * d) * (b.high * d);
      (c - s) * (c + s);
      c * c - s * s;
      { assert c * c == p * p + p * t + t * t / 4.0; }
      p * p + p * t - t * p * (1.0 - p);
      { assert t * p * (1.0 - p) == t * p - t * p * p; }
      p * p + t * p * p;
      d * (p * p);
    }
    Cancel(d, d * (b.low * b.high), p * p);
  }

  lemma Cancel(d: real, x: real, y: real)
    requires d > 0.0 && d * x == d * y
    ensures x == y
  {
    assert d * (x - y) == 0.0;
  }

  /** The defining quadratic factors over the bounds. */
  lemma Factors(p: real, t: real, s: real, b: Interval, q: real)
    requires Shape(p, t, s, b)
    ensures (1.0 + t) * ((q - b.low) * (q - b.high)) == (p - q) * (p - q) - t * q * (1.0 - q)
  {
    var d := 1.0 + t;
    ProductOfBounds(p, t, s, b);
    calc {
      d * ((q - b.low) * (q - b.high));
      { assert (q - b.low) * (q - b.high) == q * q - q * (b.low + b.high) + b.low * b.high; }
      d * (q * q) - q * (b.low * d + b.high * d) + d * (b.low * b.high);
      d * (q * q) - q * (2.0 * p + t) + p * p;
      (p - q) * (p - q) + t * (q * q) - q * t;
      { assert t * q * (1.0 - q) == t * q - t * (q * q); }
      (p - q) * (p - q) - t * q * (1.0 - q);
    }
  }

  lemma SignOfFactors(d: real, a: real, b: real)
    requires d > 0.0
    ensures d * (a * b) <= 0.0 <==> (a >= 0.0 && b <= 0.0) || (a <= 0.0 && b >= 0.0)
  {
    if a * b > 0.0 {
      assert d * (a * b) > 0.0;
    } else {
      assert d * (a * b) <= 0.0;
    }
  }

  lemma LowIsLow(p: real, t: real, s: real, b: Interval)
    requires Shape(p, t, s, b) && s >= 0.0
    ensures b.low <= b.high
  {
    Scaled(b.low, b.high, 1.0 + t);
  }

  /** Between the bounds lie exactly the rates whose score is at most z. */
  lemma Between(p: real, t: real, s: real, b: Interval, q: real)
    requires Shape(p, t, s, b) && s >= 0.0
    ensures b.low <= q <= b.high <==> (p - q) * (p - q) <= t * q * (1.0 - q)
  {
    Factors(p, t, s, b, q);
    SignOfFactors(1.0 + t, q - b.low, q - b.high);
    LowIsLow(p, t, s, b);
  }

  lemma MarginSign(z: real, root: real)
    requires z >= 0.0 && root >= 0.0
    ensures z * root >= 0.0
  {
  }

  /**
   The interval is the score test read backwards: a rate `q` lies between the bounds exactly
   when the observed rate is within `z` standard errors of it, the error taken at `q` itself.
   */
  lemma IntervalIsTheScoreTest(k: nat, n: nat, z: real, root: real, q: real)
    requires 0 < n && k <= n && z >= 0.0 && IsRoot(root, Radicand(k, n, z))
    ensures Denominator(n, z) >= 1.0
    ensures var b, p := Bounds(k, n, z, root), Rate(k, n);
            b.low <= q <= b.high <==> (p - q) * (p - q) <= z * z / n as real * q * (1.0 - q)
  {
    BoundsShape(k, n, z, root);
    MarginSign(z, root);
    Between(Rate(k, n), z * z / n as real, z * root, Bounds(k, n, z, root), q);
  }

  lemma NegativesMultiply(x: real, y: real, z: real)
    requires x < 0.0 && y < 0.0 && z == x * y
    ensures z > 0.0
  {
    assert -x * -y == z;
    ProductIsPositive(-x, -y, z);
  }

  lemma ZeroSquare(x: real, y: real, z: real)
    requires z == x * y && y == x && z <= 0.0
    ensures x == 0.0
  {
    if x > 0.0 {
      ProductIsPositive(x, y, z);
    } else if x < 0.0 {
      NegativesMultiply(x, y, z);
    }
  }

  lemma ScoreOnlyInside(p: real, t: real, q: real)
    requires 0.0 <= p <= 1.0 && t >= 0.0 && (p - q) * (p - q) <= t * q * (1.0 - q)
    ensures 0.0 <= q <= 1.0
  {
    assert t * (q * (1.0 - q)) == t * q * (1.0 - q);
    if q * (1.0 - q) <= 0.0 {
      assert t * (q * (1.0 - q)) <= 0.0;
      ZeroSquare(p - q, p - q, (p - q) * (p - q));
    } else {
      InsideByProduct(q);
    }
  }

  lemma InsideByProduct(q: real)
    requires q * (1.0 - q) > 0.0
    ensures 0.0 <= q <= 1.0
  {
  }

  /** Both clamps do nothing: the bounds enclose the observed rate inside [0, 1]. */
  lemma ClampsDoNothing(k: nat, n: nat, z: real, root: real)
    requires 0 < n && k <= n && z >= 0.0 && IsRoot(root, Radicand(k, n, z))
    ensures Denominator(n, z) >= 1.0 && Wilson(k, n, z, root) == Bounds(k, n, z, root)
    ensures var b := Bounds(k, n, z, root);
            0.0 <= b.low <= Rate(k, n) <= b.high <= 1.0
  {
    var p, t := Rate(k, n), z * z / n as real;
    BoundsShape(k, n, z, root);
    var b := Bounds(k, n, z, root);
    MarginSign(z, root);
    LowIsLow(p, t, z * root, b);
    Between(p, t, z * root, b, p);
    assert t * p * (1.0 - p) >= 0.0 by {
      assert p * (1.0 - p) >= 0.0;
      assert t * (p * (1.0 - p)) == t * p * (1.0 - p);
    }
    Between(p, t, z * root, b, b.low);
    ScoreOnlyInside(p, t, b.low);
    Between(p, t, z * root, b, b.high);
    ScoreOnlyInside(p, t, b.high);
  }

  lemma MirroredRate(k: nat, n: nat)
    requires 0 < n && k <= n
    ensures Rate(n - k, n) == 1.0 - Rate(k, n)
  {
    var m := n as real;
    assert Rate(k, n) * m == k as real;
    assert (1.0 - Rate(k, n)) * m == (n - k) as real;
    QuotientIs((n - k) as real, m, 1.0 - Rate(k, n));
  }

  lemma MirroredShape(p: real, t: real, s: real, a: Interval, b: Interval)
    requires Shape(p, t, s, a) && Shape(1.0 - p, t, s, b)
    ensures b == Interval(1.0 - a.high, 1.0 - a.low)
  {
    OneMinus(a.high, b.low, 1.0 + t, p + t / 2.0 + s, 1.0 - p + t / 2.0 - s);
    OneMinus(a.low, b.high, 1.0 + t, p + t / 2.0 - s, 1.0 - p + t / 2.0 + s);
  }

  lemma SameScaled(x: real, y: real, d: real)
    requires d > 0.0 && x * d == y * d
    ensures x == y
  {
    Scaled(x, y, d);
    Scaled(y, x, d);
  }

  lemma Distributes(x: real, d: real)
    ensures (1.0 - x) * d == d - x * d
  {
  }

  lemma OneMinus(x: real, y: real, d: real, u: real, v: real)
    requires d > 0.0 && x * d == u && y * d == v && u + v == d
    ensures y == 1.0 - x
  {
    Distributes(x, d);
    SameScaled(y, 1.0 - x, d);
  }

  lemma MirroredRadicand(k: nat, n: nat, z: real)
    requires 0 < n && k <= n
    ensures Radicand(n - k, n, z) == Radicand(k, n, z)
  {
    MirroredRate(k, n);
    var p := Rate(k, n);
    assert (1.0 - p) * (1.0 - (1.0 - p)) == p * (1.0 - p);
  }

  /** Counting failures instead of successes mirrors the interval about 1/2. */
  lemma FailuresMirrorSuccesses(k: nat, n: nat, z: real, root: real)
    requires 0 < n && k <= n && z >= 0.0 && IsRoot(root, Radicand(k, n, z))
    ensures IsRoot(root, Radicand(n - k, n, z))
    ensures Wilson(n - k, n, z, root) == Interval(1.0 - Wilson(k, n, z, root).high, 1.0 - Wilson(k, n, z, root).low)
  {
    MirroredRate(k, n);
    MirroredRadicand(k, n, z);
    ClampsDoNothing(k, n, z, root);
    ClampsDoNothing(n - k, n, z, root);
    BoundsShape(k, n, z, root);
    BoundsShape(n - k, n, z, root);
    MirroredShape(Rate(k, n), z * z / n as real, z * root, Bounds(k, n, z, root), Bounds(n - k, n, z, root));
  }

  lemma WidthOfShape(p: real, t: real, s: real, b: Interval) returns (square: real)
    requires Shape(p, t, s, b)
    ensures square == (b.high - b.low) * (b.high - b.low) && square * (1.0 + t) <= t
  {
    var w, d := b.high - b.low, 1.0 + t;
    square := w * w;
    assert w * d == 2.0 * s;
    assert p * (1.0 - p) <= 0.25 by { Squares(p - 0.5); }
    assert t * (p * (1.0 - p)) <= t * 0.25;
    calc {
      (w * w * d) * d;
      (w * d) * (w * d);
      4.0 * (s * s);
      4.0 * (t * p * (1.0 - p)) + t * t;
    }
    assert t * (p * (1.0 - p)) == t * p * (1.0 - p);
    assert (w * w * d) * d <= t * d;
    Scaled(w * w * d, t, d);
  }

  lemma WidthInN(ww: real, t: real, m: real, zz: real)
    requires m > 0.0 && t * m == zz && zz >= 0.0 && ww * (1.0 + t) <= t
    ensures ww <= zz / (m + zz)
  {
    Scaled(ww * (1.0 + t), t, m);
    assert ww * ((1.0 + t) * m) == ww * (1.0 + t) * m;
    assert (1.0 + t) * m == m + zz;
    AtMostQuotient(ww, zz, m + zz);
  }

  /** The interval narrows as 1/n: its squared width is at most z²/(n + z²). */
  lemma WidthIsBounded(k: nat, n: nat, z: real, root: real)
    requires 0 < n && k <= n && z >= 0.0 && IsRoot(root, Radicand(k, n, z))
    ensures n as real + z * z > 0.0
    ensures var r := Wilson(k, n, z, root);
            (r.high - r.low) * (r.high - r.low) <= z * z / (n as real + z * z)
  {
    ClampsDoNothing(k, n, z, root);
    BoundsShape(k, n, z, root);
    var square := WidthOfShape(Rate(k, n), z * z / n as real, z * root, Bounds(k, n, z, root));
    Squares(z);
    var t, m, zz := z * z / n as real, n as real, z * z;
    assert t * m == zz;
    WidthInN(square, t, m, zz);
  }

  lemma AtMostQuotient(x: real, y: real, d: real)
    requires d > 0.0 && x * d <= y
    ensures x <= y / d
  {
    var q := y / d;
    assert q * d == y;
    Scaled(x, q, d);
  }
}
