/** The Wilson score interval over exact reals.

    `sqrt` stands for `math.sqrt`; the only thing assumed of it is that it returns the
    non-negative root (`ComputesSqrt`). The lemmas about the interval first clear the
    denominators (`Cleared`), so that everything after is polynomial. */
module Wilson {

  ghost predicate ComputesSqrt(sqrt: real -> real) {
    forall x :: x >= 0.0 ==> sqrt(x) >= 0.0 && sqrt(x) * sqrt(x) == x
  }

  /** The argument handed to the square root. */
  function Radicand(successes: int, total: int, z: real): real
    requires total > 0
  {
    var phat := successes as real / total as real;
    (phat * (1.0 - phat) + z * z / (4.0 * total as real)) / total as real
  }

  function Center(successes: int, total: int, z: real): real
    requires total > 0
  {
    (successes as real / total as real + z * z / (2.0 * total as real)) / (1.0 + z * z / total as real)
  }

  function Margin(successes: int, total: int, z: real, sqrt: real -> real): real
    requires total > 0
  {
    z * sqrt(Radicand(successes, total, z)) / (1.0 + z * z / total as real)
  }

  function Max(a: real, b: real): real { if b > a then b else a }

  function Min(a: real, b: real): real { if b < a then b else a }

  // The facts the lemmas below pass to each other, named so that they travel as they are.

  ghost predicate IsProduct(a: real, b: real, product: real) { a * b == product }

  /** n * q^2 = k * (n - k) + n * z2 / 4 */
  ghost predicate RootSquared(q: real, k: real, n: real, z2: real) { q * q * n == k * (n - k) + z2 * n / 4.0 }

  /** The same, for the radicand r = (q / n)^2. */
  ghost predicate RadicandScaled(r: real, k: real, n: real, z2: real) { r * n * n * n == k * (n - k) + z2 * n / 4.0 }

  /** (c^2 - m^2) * e * n = k^2 */
  ghost predicate RootsMultiply(c: real, m: real, e: real, n: real, k: real) { RootGap(c, m) * e * n == k * k }

  /** `wilson_interval`. A negative radicand is a `ValueError` of `math.sqrt`. */
  function WilsonInterval(successes: int, total: int, z: real, sqrt: real -> real): (r: (real, real))
    requires total > 0 ==> Radicand(successes, total, z) >= 0.0
  {
    if total <= 0 then (0.0, 0.0)
    else
      (Max(0.0, Center(successes, total, z) - Margin(successes, total, z, sqrt)),
       Min(1.0, Center(successes, total, z) + Margin(successes, total, z, sqrt)))
  }

  lemma DivMul(a: real, b: real)
    requires b != 0.0
    ensures a / b * b == a
    ensures IsProduct(a / b, b, a)
  {
  }

  /** x == y follows from x * c == y * c. */
  lemma CancelEq(x: real, y: real, c: real)
    requires c != 0.0 && x * c == y * c
    ensures x == y
  {
    assert (x - y) * c == 0.0;
  }

  lemma CancelLe(x: real, y: real, c: real)
    requires c > 0.0 && x * c <= y * c
    ensures x <= y
  {
    assert (x - y) * c <= 0.0;
  }

  lemma CancelLt(x: real, y: real, c: real)
    requires c > 0.0 && x * c < y * c
    ensures x < y
  {
    assert (x - y) * c < 0.0;
  }

  lemma MulPositive(a: real, b: real)
    requires a > 0.0 && b > 0.0
    ensures a * b > 0.0
  {
  }

  lemma SquareLe(x: real, y: real)
    requires y >= 0.0 && x * x <= y * y
    ensures x <= y
  {
    if x > y { MulPositive(x - y, x + y); }
  }

  lemma RadicandCleared(successes: int, total: int, z: real)
    requires total > 0
    ensures RadicandScaled(Radicand(successes, total, z), successes as real, total as real, z * z)
  {
    var k, n := successes as real, total as real;
    var p, h, r := k / n, z * z / (4.0 * n), Radicand(successes, total, z);
    DivMul(k, n);
    DivMul(z * z, 4.0 * n);
    DivMul(p * (1.0 - p) + h, n);
    calc {
      r * n * n * n;
      { assert r * n == p * (1.0 - p) + h; }
      (p * (1.0 - p) + h) * n * n;
      (p * n) * (n - p * n) + (h * n) * n;
      { assert p * n == k; assert h * n == z * z / 4.0 by { assert h * (4.0 * n) == z * z; } }
      k * (n - k) + z * z / 4.0 * n;
    }
  }

  lemma RadicandNonNegative(successes: int, total: int, z: real)
    requires 0 <= successes <= total && total > 0
    ensures Radicand(successes, total, z) >= 0.0
  {
    var k, n := successes as real, total as real;
    MulNonNegativeSquare(z);
    RadicandCleared(successes, total, z);
    ScaledNonNegative(Radicand(successes, total, z), k, n, z * z);
  }

  lemma ScaledNonNegative(r: real, k: real, n: real, z2: real)
    requires n > 0.0 && 0.0 <= k <= n && z2 >= 0.0 && RadicandScaled(r, k, n, z2)
    ensures r >= 0.0
  {
    MulNonNegative(k, n - k);
    MulNonNegative(z2, n);
    CancelLe(0.0, r * n * n, n);
    CancelLe(0.0, r * n, n);
    CancelLe(0.0, r, n);
  }

  lemma CenterCleared(successes: int, total: int, z: real)
    requires total > 0
    ensures IsProduct(Center(successes, total, z), total as real + z * z, successes as real + z * z / 2.0)
  {
    var k, n, z2 := successes as real, total as real, z * z;
    var d, num := 1.0 + z2 / n, k / n + z2 / (2.0 * n);
    assert z2 >= 0.0;
    DivMul(z2, n);
    DivMul(k, n);
    DivMul(z2, 2.0 * n);
    assert d * n == n + z2;
    assert d != 0.0;
    DivMul(num, d);
    calc {
      Center(successes, total, z) * (n + z2);
      (num / d) * (d * n);
      (num / d * d) * n;
      num * n;
      k / n * n + z2 / (2.0 * n) * n;
      k + z2 / 2.0;
    }
  }

  lemma MarginCleared(successes: int, total: int, z: real, sqrt: real -> real)
    requires total > 0
    ensures Margin(successes, total, z, sqrt) * (total as real + z * z)
            == z * (sqrt(Radicand(successes, total, z)) * total as real)
  {
    var n, z2, s := total as real, z * z, sqrt(Radicand(successes, total, z));
    var d := 1.0 + z2 / n;
    assert z2 >= 0.0;
    DivMul(z2, n);
    assert d * n == n + z2;
    assert d != 0.0;
    DivMul(z * s, d);
    calc {
      Margin(successes, total, z, sqrt) * (n + z2);
      (z * s / d) * (d * n);
      (z * s / d * d) * n;
      z * s * n;
    }
  }

  /** Everything the other lemmas need, free of division: with k successes of n, z2 = z^2,
      e = n + z2 and q = n * sqrt(radicand), the center c and the margin m satisfy
      c * e = k + z2 / 2, m * e = z * q and n * q^2 = k * (n - k) + n * z2 / 4. */
  lemma Cleared(successes: int, total: int, z: real, sqrt: real -> real, k: real, n: real, z2: real, e: real)
    returns (q: real, c: real, m: real)
    requires ComputesSqrt(sqrt)
    requires 0 <= successes <= total && total > 0
    requires k == successes as real && n == total as real && z2 == z * z && e == n + z2
    ensures Radicand(successes, total, z) >= 0.0
    ensures 0.0 <= k <= n && n > 0.0 && z2 >= 0.0 && e > 0.0 && q >= 0.0
    ensures c == Center(successes, total, z) && m == Margin(successes, total, z, sqrt)
    ensures RootSquared(q, k, n, z2)
    ensures IsProduct(c, e, k + z2 / 2.0)
    ensures IsProduct(m, e, z * q)
  {
    var r := Radicand(successes, total, z);
    RadicandNonNegative(successes, total, z);
    RadicandCleared(successes, total, z);
    CenterCleared(successes, total, z);
    MarginCleared(successes, total, z, sqrt);
    c, m := Center(successes, total, z), Margin(successes, total, z, sqrt);
    var s := sqrt(r);
    assert s >= 0.0 && s * s == r;
    q := s * n;
    MulNonNegative(s, n);
    ScaledSquare(s, r, k, n, z2);
    MulNonNegativeSquare(z);
  }

  lemma ScaledSquare(s: real, r: real, k: real, n: real, z2: real)
    requires s * s == r && RadicandScaled(r, k, n, z2)
    ensures RootSquared(s * n, k, n, z2)
  {
    assert (s * n) * (s * n) * n == (s * s) * n * n * n;
  }

  /** The unclamped ends. */
  function Lower(successes: int, total: int, z: real, sqrt: real -> real): real
    requires total > 0
  {
    Center(successes, total, z) - Margin(successes, total, z, sqrt)
  }

  function Upper(successes: int, total: int, z: real, sqrt: real -> real): real
    requires total > 0
  {
    Center(successes, total, z) + Margin(successes, total, z, sqrt)
  }

  /** The score equation whose solutions the interval ends are supposed to be:
      (p - phat)^2 = z^2 p (1 - p) / total. */
  ghost predicate ScoreEquation(p: real, successes: int, total: int, z: real)
    requires total > 0
  {
    SquaredDistance(p, successes as real / total as real) == Spread(p, z * z, total as real)
  }

  function SquaredDistance(p: real, phat: real): real { (p - phat) * (p - phat) }

  function Spread(p: real, z2: real, n: real): real
    requires n != 0.0
  {
    z2 * p * (1.0 - p) / n
  }

  /** d and w differ by the quadratic with leading coefficient e / n and roots lo and hi. */
  ghost predicate RootForm(d: real, w: real, n: real, e: real, p: real, lo: real, hi: real) {
    (d - w) * n == e * ((p - lo) * (p - hi))
  }

  /** The product of the roots c - m and c + m. */
  function RootGap(c: real, m: real): real { c * c - m * m }

  /** The product of the roots, cleared: (c^2 - m^2) (n + z2) n == k^2. */
  lemma RootProduct(k: real, n: real, z: real, z2: real, e: real, q: real, c: real, m: real)
    requires n > 0.0 && z2 == z * z && e == n + z2 && e > 0.0
    requires RootSquared(q, k, n, z2)
    requires IsProduct(c, e, k + z2 / 2.0) && IsProduct(m, e, z * q)
    ensures RootsMultiply(c, m, e, n, k)
  {
    calc {
      RootGap(c, m) * e * n * e;
      ((c * e) * (c * e) - (m * e) * (m * e)) * n;
      { assert c * e == k + z2 / 2.0 && m * e == z * q; }
      ((k + z2 / 2.0) * (k + z2 / 2.0) - (z * q) * (z * q)) * n;
      (k * k + k * z2 + z2 * z2 / 4.0) * n - z2 * (q * q * n);
      (k * k + k * z2 + z2 * z2 / 4.0) * n - z2 * (k * (n - k) + z2 * n / 4.0);
      k * k * e;
    }
    CancelEq(RootGap(c, m) * e * n, k * k, e);
  }

  lemma CancelPhat(c: real, m: real, e: real, phat: real, k: real, n: real)
    requires n > 0.0 && IsProduct(phat, n, k) && RootsMultiply(c, m, e, n, k)
    ensures IsProduct(RootGap(c, m), e, phat * k)
  {
    var product := RootGap(c, m) * e;
    assert (phat * k) * n == k * (phat * n);
    CancelEq(product, phat * k, n);
  }

  lemma SpreadCleared(p: real, z2: real, n: real)
    requires n > 0.0
    ensures IsProduct(Spread(p, z2, n), n, z2 * p - z2 * (p * p))
  {
    DivMul(z2 * p * (1.0 - p), n);
    assert z2 * p * (1.0 - p) == z2 * p - z2 * (p * p);
  }

  lemma ExpandDistance(p: real, phat: real, k: real, n: real)
    requires IsProduct(phat, n, k)
    ensures IsProduct(SquaredDistance(p, phat), n, p * p * n - 2.0 * (p * k) + phat * k)
  {
    calc {
      SquaredDistance(p, phat) * n;
      (p * p - 2.0 * (p * phat) + phat * phat) * n;
      p * p * n - 2.0 * (p * (phat * n)) + phat * (phat * n);
    }
  }

  lemma ExpandRoots(p: real, c: real, m: real, k: real, n: real, z2: real, e: real, product: real)
    requires e == n + z2 && IsProduct(c, e, k + z2 / 2.0) && IsProduct(RootGap(c, m), e, product)
    ensures IsProduct(e, (p - (c - m)) * (p - (c + m)),
                      (p * p * n - 2.0 * (p * k) + product) - (z2 * p - z2 * (p * p)))
  {
    calc {
      e * ((p - (c - m)) * (p - (c + m)));
      e * (p * p - 2.0 * (p * c) + RootGap(c, m));
      p * p * e - 2.0 * (p * (c * e)) + RootGap(c, m) * e;
      p * p * (n + z2) - 2.0 * (p * (k + z2 / 2.0)) + product;
    }
  }

  lemma RootFormIntro(d: real, w: real, n: real, e: real, p: real, lo: real, hi: real, dn: real, wn: real)
    requires IsProduct(d, n, dn) && IsProduct(w, n, wn) && IsProduct(e, (p - lo) * (p - hi), dn - wn)
    ensures RootForm(d, w, n, e, p, lo, hi)
  {
    assert (d - w) * n == d * n - w * n;
  }

  /** The score equation, cleared of its denominators, is the quadratic with roots c - m and c + m. */
  lemma FactorQuadratic(p: real, phat: real, k: real, n: real, z2: real, e: real, c: real, m: real)
    requires n > 0.0 && e == n + z2 && IsProduct(phat, n, k) && IsProduct(c, e, k + z2 / 2.0)
    requires IsProduct(RootGap(c, m), e, phat * k)
    ensures RootForm(SquaredDistance(p, phat), Spread(p, z2, n), n, e, p, c - m, c + m)
  {
    SpreadCleared(p, z2, n);
    ExpandDistance(p, phat, k, n);
    ExpandRoots(p, c, m, k, n, z2, e, phat * k);
    RootFormIntro(SquaredDistance(p, phat), Spread(p, z2, n), n, e, p, c - m, c + m,
                  p * p * n - 2.0 * (p * k) + phat * k, z2 * p - z2 * (p * p));
  }

  /** The unclamped ends are exactly the solutions of the score equation. */
  lemma EndsAreTheRoots(p: real, successes: int, total: int, z: real, sqrt: real -> real)
    requires ComputesSqrt(sqrt)
    requires 0 <= successes <= total && total > 0
    ensures ScoreEquation(p, successes, total, z)
            <==> p == Lower(successes, total, z, sqrt) || p == Upper(successes, total, z, sqrt)
  {
    var k, n, z2 := successes as real, total as real, z * z;
    var e := n + z2;
    var q, c, m := Cleared(successes, total, z, sqrt, k, n, z2, e);
    var phat := k / n;
    DivMul(k, n);
    RootProduct(k, n, z, z2, e, q, c, m);
    CancelPhat(c, m, e, phat, k, n);
    FactorQuadratic(p, phat, k, n, z2, e, c, m);
    RootsOnly(SquaredDistance(p, phat), Spread(p, z2, n), n, e, p, c - m, c + m);
  }

  lemma RootsOnly(d: real, w: real, n: real, e: real, p: real, lo: real, hi: real)
    requires n > 0.0 && e > 0.0 && RootForm(d, w, n, e, p, lo, hi)
    ensures d == w <==> p == lo || p == hi
  {
    if d == w {
      ZeroProduct(e, (p - lo) * (p - hi));
      ZeroProduct(p - lo, p - hi);
    } else if p == lo || p == hi {
      CancelEq(d - w, 0.0, n);
    }
  }

  lemma ZeroProduct(a: real, b: real)
    requires a * b == 0.0
    ensures a == 0.0 || b == 0.0
  {
  }

  /** 0 <= lower <= phat <= upper <= 1, so the clamps of the program change nothing. */
  lemma EndsAreOrdered(successes: int, total: int, z: real, sqrt: real -> real)
    requires ComputesSqrt(sqrt)
    requires 0 <= successes <= total && total > 0 && z >= 0.0
    ensures 0.0 <= Lower(successes, total, z, sqrt) <= successes as real / total as real
            <= Upper(successes, total, z, sqrt) <= 1.0
    ensures Radicand(successes, total, z) >= 0.0
    ensures WilsonInterval(successes, total, z, sqrt)
            == (Lower(successes, total, z, sqrt), Upper(successes, total, z, sqrt))
  {
    var k, n, z2 := successes as real, total as real, z * z;
    var e := n + z2;
    var q, c, m := Cleared(successes, total, z, sqrt, k, n, z2, e);
    var phat := k / n;
    DivMul(k, n);
    RootProduct(k, n, z, z2, e, q, c, m);
    CenterAndMarginRange(c, m, k, n, z, z2, e, q);
    LowerNotNegative(c, m, k, n, e);
    UpperNotAboveOne(c, m, k, n, z2, e);
    CancelPhat(c, m, e, phat, k, n);
    FactorQuadratic(phat, phat, k, n, z2, e, c, m);
    PhatInside(phat, k, n, z2, e, c, m);
  }

  lemma CenterAndMarginRange(c: real, m: real, k: real, n: real, z: real, z2: real, e: real, q: real)
    requires n > 0.0 && z2 >= 0.0 && e == n + z2 && 0.0 <= k <= n && z >= 0.0 && q >= 0.0
    requires IsProduct(c, e, k + z2 / 2.0) && IsProduct(m, e, z * q)
    ensures 0.0 <= c <= 1.0 && 0.0 <= m
  {
    MulNonNegative(z, q);
    CancelLe(0.0, m, e);
    CancelLe(0.0, c, e);
    CancelLe(c, 1.0, e);
  }

  lemma LowerNotNegative(c: real, m: real, k: real, n: real, e: real)
    requires n > 0.0 && e > 0.0 && c >= 0.0
    requires RootsMultiply(c, m, e, n, k)
    ensures m <= c
  {
    var gap := RootGap(c, m);
    MulNonNegativeSquare(k);
    CancelLe(0.0, gap * e, n);
    CancelLe(0.0, gap, e);
    SquareLe(m, c);
  }

  lemma UpperNotAboveOne(c: real, m: real, k: real, n: real, z2: real, e: real)
    requires n > 0.0 && z2 >= 0.0 && e == n + z2 && c <= 1.0
    requires IsProduct(c, e, k + z2 / 2.0)
    requires RootsMultiply(c, m, e, n, k)
    ensures m <= 1.0 - c
  {
    var gap, gap' := RootGap(c, m), (1.0 - c) * (1.0 - c) - m * m;
    assert gap' == 1.0 - 2.0 * c + gap;
    assert gap' * e == e - 2.0 * (c * e) + gap * e;
    assert gap' * e == n - 2.0 * k + gap * e;
    var left := gap * e;
    assert (n - 2.0 * k + left) * n == n * n - 2.0 * k * n + left * n;
    assert (n - 2.0 * k + left) * n == (n - k) * (n - k);
    MulNonNegativeSquare(n - k);
    CancelLe(0.0, gap' * e, n);
    CancelLe(0.0, gap', e);
    SquareLe(m, 1.0 - c);
  }

  lemma MulNonNegativeSquare(a: real)
    ensures a * a >= 0.0
  {
  }

  lemma MulNonNegative(a: real, b: real)
    requires a >= 0.0 && b >= 0.0
    ensures a * b >= 0.0
  {
  }

  lemma PhatInside(phat: real, k: real, n: real, z2: real, e: real, c: real, m: real)
    requires n > 0.0 && e > 0.0 && z2 >= 0.0 && m >= 0.0 && 0.0 <= k <= n && IsProduct(phat, n, k)
    requires RootForm(SquaredDistance(phat, phat), Spread(phat, z2, n), n, e, phat, c - m, c + m)
    ensures c - m <= phat <= c + m
  {
    var w := z2 * phat * (1.0 - phat);
    DivMul(w, n);
    CancelLe(0.0, phat, n);
    CancelLe(phat, 1.0, n);
    MulNonNegative(z2, phat);
    MulNonNegative(z2 * phat, 1.0 - phat);
    assert (0.0 - w / n) * n == -w;
    var product := (phat - (c - m)) * (phat - (c + m));
    assert product * e <= 0.0 * e;
    CancelLe(product, 0.0, e);
    assert (phat - c) * (phat - c) <= m * m;
    SquareLe(phat - c, m);
    SquareLe(c - phat, m);
  }

  /** One more success moves the lower end strictly up. */
  lemma LowerStrictlyIncreasing(few: int, many: int, total: int, z: real, sqrt: real -> real)
    requires ComputesSqrt(sqrt)
    requires 0 <= few < many <= total && z >= 0.0
    ensures Lower(few, total, z, sqrt) < Lower(many, total, z, sqrt)
  {
    var j, k, n, z2 := few as real, many as real, total as real, z * z;
    var e := n + z2;
    var p, b, l := Cleared(few, total, z, sqrt, j, n, z2, e);
    var q, c, m := Cleared(many, total, z, sqrt, k, n, z2, e);
    HalfZBelow(j, n, z, z2, p);
    HalfZBelow(k, n, z, z2, q);
    GrowthTimesSum(j, k, n, p, q, z2);
    DifferenceOfSquares(q, p);
    SmallerFactor(z, q + p, q - p, k - j);
    LowerEndsCompare(b, l, c, m, e, j, k, z2, z, p, q);
  }

  lemma HalfZBelow(k: real, n: real, z: real, z2: real, q: real)
    requires n > 0.0 && 0.0 <= k <= n && q >= 0.0 && z2 == z * z
    requires RootSquared(q, k, n, z2)
    ensures z / 2.0 <= q
  {
    MulNonNegative(k, n - k);
    CancelLe(z2 / 4.0, q * q, n);
    SquareLe(z / 2.0, q);
  }

  /** The squared root grows by less than one per success. */
  lemma GrowthTimesSum(j: real, k: real, n: real, p: real, q: real, z2: real)
    requires 0.0 <= j < k <= n
    requires RootSquared(p, j, n, z2) && RootSquared(q, k, n, z2)
    ensures q * q - p * p < k - j
  {
    MulPositive(k - j, k + j);
    DifferenceOfRoots(j, k, n, p, q, z2);
    LessByPositive(q * q - p * p, k - j, n, (k - j) * (k + j));
  }

  lemma DifferenceOfRoots(j: real, k: real, n: real, p: real, q: real, z2: real)
    requires RootSquared(p, j, n, z2) && RootSquared(q, k, n, z2)
    ensures (q * q - p * p) * n == (k - j) * n - (k - j) * (k + j)
  {
    assert (k - j) * (k + j) == k * k - j * j;
  }

  lemma LessByPositive(x: real, d: real, n: real, s: real)
    requires n > 0.0 && s > 0.0 && x * n == d * n - s
    ensures x < d
  {
    CancelLt(x, d, n);
  }

  lemma DifferenceOfSquares(q: real, p: real)
    ensures (q - p) * (q + p) == q * q - p * p
  {
  }

  lemma SmallerFactor(z: real, sum: real, growth: real, bound: real)
    requires 0.0 <= z <= sum && growth * sum < bound && bound > 0.0
    ensures z * growth < bound
  {
    if growth <= 0.0 {
      MulNonNegative(z, -growth);
      assert z * growth == -(z * -growth);
    } else {
      MulNonNegative(sum - z, growth);
      assert (sum - z) * growth == growth * sum - z * growth;
    }
  }

  lemma LowerEndsCompare(b: real, l: real, c: real, m: real, e: real, j: real, k: real, z2: real, z: real, p: real,
                         q: real)
    requires e > 0.0 && z * (q - p) < k - j
    requires IsProduct(b, e, j + z2 / 2.0) && IsProduct(l, e, z * p)
    requires IsProduct(c, e, k + z2 / 2.0) && IsProduct(m, e, z * q)
    ensures b - l < c - m
  {
    assert z * (q - p) == z * q - z * p;
    assert (b - l) * e == b * e - l * e && (c - m) * e == c * e - m * e;
    CancelLt(b - l, c - m, e);
  }

  /** Counting failures instead of successes mirrors the interval at one half. */
  lemma SwapMirrors(successes: int, total: int, z: real, sqrt: real -> real)
    requires ComputesSqrt(sqrt)
    requires 0 <= successes <= total && total > 0
    ensures Lower(total - successes, total, z, sqrt) == 1.0 - Upper(successes, total, z, sqrt)
    ensures Upper(total - successes, total, z, sqrt) == 1.0 - Lower(successes, total, z, sqrt)
  {
    var k, n, z2 := successes as real, total as real, z * z;
    var e := n + z2;
    var q, c, m := Cleared(successes, total, z, sqrt, k, n, z2, e);
    var k' := n - k;
    var q', c', m' := Cleared(total - successes, total, z, sqrt, k', n, z2, e);
    MirroredCenter(c, c', k, k', n, z2, e);
    SameRoot(q, q', k, k', n, z2);
    SameMargin(m, m', z, q, q', e);
  }

  lemma SameMargin(m: real, m': real, z: real, q: real, q': real, e: real)
    requires e > 0.0 && q == q' && IsProduct(m, e, z * q) && IsProduct(m', e, z * q')
    ensures m == m'
  {
    CancelEq(m', m, e);
  }

  lemma MirroredCenter(c: real, c': real, k: real, k': real, n: real, z2: real, e: real)
    requires e > 0.0 && e == n + z2 && k' == n - k
    requires IsProduct(c, e, k + z2 / 2.0) && IsProduct(c', e, k' + z2 / 2.0)
    ensures c' == 1.0 - c
  {
    assert (1.0 - c) * e == e - c * e;
    CancelEq(c', 1.0 - c, e);
  }

  lemma SameRoot(q: real, q': real, k: real, k': real, n: real, z2: real)
    requires n > 0.0 && q >= 0.0 && q' >= 0.0 && k' == n - k
    requires RootSquared(q, k, n, z2)
    requires RootSquared(q', k', n, z2)
    ensures q == q'
  {
    assert k * (n - k) == k' * (n - k');
    CancelEq(q * q, q' * q', n);
    SquareLe(q, q');
    SquareLe(q', q);
  }

  lemma UpperStrictlyIncreasing(few: int, many: int, total: int, z: real, sqrt: real -> real)
    requires ComputesSqrt(sqrt)
    requires 0 <= few < many <= total && z >= 0.0
    ensures Upper(few, total, z, sqrt) < Upper(many, total, z, sqrt)
  {
    LowerStrictlyIncreasing(total - many, total - few, total, z, sqrt);
    SwapMirrors(few, total, z, sqrt);
    SwapMirrors(many, total, z, sqrt);
  }

  /** A perfect record has upper end 1 and lower end total / (total + z^2); an empty one starts at 0. */
  lemma PerfectRecord(total: int, z: real, sqrt: real -> real)
    requires ComputesSqrt(sqrt)
    requires total > 0 && z >= 0.0
    ensures Upper(total, total, z, sqrt) == 1.0
    ensures Lower(total, total, z, sqrt) * (total as real + z * z) == total as real
    ensures Lower(0, total, z, sqrt) == 0.0
  {
    var n, z2 := total as real, z * z;
    var e := n + z2;
    var q, c, m := Cleared(total, total, z, sqrt, n, n, z2, e);
    HalfZExactly(n, z, z2, q);
    PerfectEnds(c, m, n, z2, e, z * q);
    SwapMirrors(total, total, z, sqrt);
  }

  lemma HalfZExactly(n: real, z: real, z2: real, q: real)
    requires n > 0.0 && z >= 0.0 && q >= 0.0 && z2 == z * z
    requires RootSquared(q, n, n, z2)
    ensures z * q == z2 / 2.0
  {
    CancelEq(q * q, z2 / 4.0, n);
    SquareLe(q, z / 2.0);
    SquareLe(z / 2.0, q);
  }

  lemma PerfectEnds(c: real, m: real, n: real, z2: real, e: real, zq: real)
    requires e > 0.0 && e == n + z2 && zq == z2 / 2.0
    requires IsProduct(c, e, n + z2 / 2.0) && IsProduct(m, e, zq)
    ensures c + m == 1.0 && (c - m) * e == n
  {
    assert (c + m) * e == c * e + m * e && (c - m) * e == c * e - m * e;
    CancelEq(c + m, 1.0, e);
  }

  /** A perfect record of `total` cases reaches confidence `target` exactly when
      total * (1 - target) >= target * z^2. */
  lemma PerfectRecordMeetsTarget(total: int, z: real, target: real, sqrt: real -> real)
    requires ComputesSqrt(sqrt)
    requires total > 0 && z >= 0.0
    ensures Lower(total, total, z, sqrt) >= target <==> total as real * (1.0 - target) >= target * (z * z)
  {
    PerfectRecord(total, z, sqrt);
    MulNonNegativeSquare(z);
    PerfectAlgebra(Lower(total, total, z, sqrt), total as real, z * z, total as real + z * z, target);
  }

  lemma PerfectAlgebra(lo: real, n: real, z2: real, e: real, target: real)
    requires n > 0.0 && z2 >= 0.0 && e == n + z2 && lo * e == n
    ensures lo >= target <==> n * (1.0 - target) >= target * z2
  {
    assert target * e == target * n + target * z2;
    if lo >= target {
      MulNonNegative(lo - target, e);
      assert (lo - target) * e == lo * e - target * e;
    } else {
      MulPositive(target - lo, e);
      assert (target - lo) * e == target * e - lo * e;
    }
  }
}
