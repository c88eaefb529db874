/** The Wilson score lower bound (backend/services/_stats.py), over `real`. The square root is a
    parameter, specified by r >= 0 and r * r == x. */
module WilsonBound {
  import opened Options

  ghost predicate IsSqrt(sqrt: real -> real) {
    forall x: real :: x >= 0.0 ==> sqrt(x) >= 0.0 && sqrt(x) * sqrt(x) == x
  }

  function Max(x: real, y: real): real {
    if x < y then y else x
  }

  function Radicand(p: real, n: real, z: real): real
    requires n > 0.0
  {
    p * (1.0 - p) / n + z * z / (4.0 * n * n)
  }

  function FromRoot(p: real, n: real, z: real, root: real): real
    requires n > 0.0
  {
    var z2 := z * z;
    var denominator := 1.0 + z2 / n;
    var center := p + z2 / (2.0 * n);
    var spread := z * root;
    assert denominator > 0.0 by { Denominator(z, z2, n); }
    Max(0.0, (center - spread) / denominator)
  }

  /** None stands for the ValueError that math.sqrt raises on a negative argument. */
  function WilsonLowerBound(sqrt: real -> real, successes: int, total: int, z: real): Option<real> {
    if total <= 0 then Some(0.0) else
    var n := total as real;
    var p := successes as real / n;
    var radicand := Radicand(p, n, z);
    if radicand < 0.0 then None else Some(FromRoot(p, n, z, sqrt(radicand)))
  }

  lemma Denominator(z: real, z2: real, n: real)
    requires n > 0.0 && z2 == z * z
    ensures z2 / n >= 0.0
  {
    if z != 0.0 {
      var w := if z > 0.0 then z else -z;
      assert z2 == w * w;
      Positive(w, w, z2);
    }
  }

  lemma Positive(x: real, y: real, p: real)
    requires x > 0.0 && y > 0.0 && p == x * y
    ensures p > 0.0
  {
  }

  /** The score test: a rate x is consistent with the observed rate p. */
  ghost predicate Accepted(p: real, n: real, z: real, x: real) {
    n * ((p - x) * (p - x)) <= (z * z) * (x * (1.0 - x))
  }

  // ---- The bound in terms of the rate p and k = z*z / (2n) ----

  /** s is the spread: the nonnegative square root of 2k*p*(1-p) + k*k. */
  ghost predicate IsSpread(p: real, k: real, s: real) {
    s >= 0.0 && s * s == 2.0 * (k * (p * (1.0 - p))) + k * k
  }

  ghost predicate InDomain(p: real, k: real, s: real) {
    0.0 <= p <= 1.0 && k >= 0.0 && IsSpread(p, k, s)
  }

  ghost function Bound(p: real, k: real, s: real): real
    requires k >= 0.0
  {
    (p + k - s) / (1.0 + 2.0 * k)
  }

  /** The quadratic whose smaller root the bound is. */
  ghost function Score(p: real, k: real, x: real): real {
    (x - p) * (x - p) - 2.0 * (k * (x * (1.0 - x)))
  }

  lemma SquareRootOrder(x: real, y: real)
    requires y >= 0.0
    requires x * x <= y * y
    ensures x <= y
  {
    if x > y {
      var d := x - y;
      assert x * x == y * y + 2.0 * (d * y) + d * d;
      assert d * y >= 0.0;
      Positive(d, d, d * d);
    }
  }

  lemma NonNegative(x: real, y: real)
    requires x >= 0.0 && y >= 0.0
    ensures x * y >= 0.0
  {
  }

  lemma SpreadIsAboveLine(p: real, k: real, s: real)
    requires InDomain(p, k, s)
    ensures k * (1.0 - 2.0 * p) <= s
  {
    var t := k * (1.0 - 2.0 * p);
    var v := p * (1.0 - p);
    NonNegative(p, 1.0 - p);
    NonNegative(k, v);
    NonNegative(k, k * v);
    assert t * t == k * k - 4.0 * (k * (k * v));
    SquareRootOrder(t, s);
  }

  /** The product of the two roots of the quadratic. */
  lemma ConjugateProduct(p: real, k: real, s: real)
    requires InDomain(p, k, s)
    ensures (p + k - s) * (p + k + s) == (p * p) * (1.0 + 2.0 * k)
  {
    var c := p + k;
    assert (c - s) * (c + s) == c * c - s * s;
    assert c * c == p * p + 2.0 * (p * k) + k * k;
    assert k * (p * (1.0 - p)) == p * k - k * (p * p);
  }

  lemma SpreadIsBelowCenter(p: real, k: real, s: real)
    requires InDomain(p, k, s)
    ensures s <= p + k
  {
    ConjugateProduct(p, k, s);
    var c := p + k;
    NonNegative(p, p);
    NonNegative(p * p, 1.0 + 2.0 * k);
    assert c * c - s * s == (c - s) * (c + s) >= 0.0;
    SquareRootOrder(s, c);
  }

  lemma DivideBounds(x: real, d: real, y: real)
    requires d > 0.0
    ensures x >= 0.0 ==> x / d >= 0.0
    ensures x <= y * d ==> x / d <= y
    ensures x >= y * d ==> x / d >= y
    ensures (x / d) * d == x
  {
  }

  /** The bound lies between 0 and the observed rate. */
  lemma BoundRange(p: real, k: real, s: real)
    requires InDomain(p, k, s)
    ensures 0.0 <= Bound(p, k, s) <= p
  {
    SpreadIsBelowCenter(p, k, s);
    SpreadIsAboveLine(p, k, s);
    assert k * (1.0 - 2.0 * p) == k - 2.0 * (p * k);
    assert p * (1.0 + 2.0 * k) == p + 2.0 * (p * k);
    DivideBounds(p + k - s, 1.0 + 2.0 * k, p);
  }

  // ---- The bound is the least rate the score test accepts ----

  lemma ScoreCompletesSquare(p: real, k: real, s: real, x: real, y: real)
    requires InDomain(p, k, s)
    requires y == (1.0 + 2.0 * k) * x - (p + k)
    ensures (1.0 + 2.0 * k) * Score(p, k, x) == y * y - s * s
  {
    var d, c := 1.0 + 2.0 * k, p + k;
    ConjugateProduct(p, k, s);
    assert Score(p, k, x) == d * (x * x) - 2.0 * (c * x) + p * p by {
      assert (x - p) * (x - p) == x * x - 2.0 * (p * x) + p * p;
      assert k * (x * (1.0 - x)) == k * x - k * (x * x);
      assert d * (x * x) == x * x + 2.0 * (k * (x * x));
      assert c * x == p * x + k * x;
    }
    assert d * Score(p, k, x) == d * (d * (x * x)) - 2.0 * (d * (c * x)) + d * (p * p);
    assert y * y == (d * x) * (d * x) - 2.0 * ((d * x) * c) + c * c;
    assert (c - s) * (c + s) == c * c - s * s;
  }

  lemma BoundIsRoot(p: real, k: real, s: real)
    requires InDomain(p, k, s)
    ensures Score(p, k, Bound(p, k, s)) == 0.0
  {
    var d := 1.0 + 2.0 * k;
    var x := Bound(p, k, s);
    DivideBounds(p + k - s, d, 0.0);
    ScoreCompletesSquare(p, k, s, x, -s);
    assert d * Score(p, k, x) == 0.0;
  }

  lemma ScoreBelowBoundIsPositive(p: real, k: real, s: real, x: real)
    requires InDomain(p, k, s)
    requires x < Bound(p, k, s)
    ensures Score(p, k, x) > 0.0
  {
    var d := 1.0 + 2.0 * k;
    var b := Bound(p, k, s);
    DivideBounds(p + k - s, d, 0.0);
    Positive(d, b - x, d * (b - x));
    var y := d * x - (p + k);
    assert d * (b - x) == b * d - d * x;
    assert y < -s;
    ScoreCompletesSquare(p, k, s, x, y);
    if Score(p, k, x) <= 0.0 {
      NonNegative(d, -Score(p, k, x));
      assert (-y) * (-y) == y * y <= s * s;
      SquareRootOrder(-y, s);
    }
  }

  lemma ScoreFallsWithK(p: real, k: real, k': real, x: real)
    requires 0.0 <= x <= 1.0 && k' <= k
    ensures Score(p, k, x) <= Score(p, k', x)
  {
    NonNegative(x, 1.0 - x);
    var v := x * (1.0 - x);
    NonNegative(k - k', v);
    assert (k - k') * v == k * v - k' * v;
  }

  /** A larger sample at the same observed rate (a smaller k) never lowers the bound. */
  lemma BoundGrowsWithSample(p: real, k: real, s: real, k': real, s': real)
    requires InDomain(p, k, s) && InDomain(p, k', s')
    requires k' <= k
    ensures Bound(p, k, s) <= Bound(p, k', s')
  {
    hide Score, IsSpread, Bound;
    var x := Bound(p, k', s');
    BoundRange(p, k', s');
    BoundIsRoot(p, k', s');
    ScoreFallsWithK(p, k, k', x);
    if x < Bound(p, k, s) { ScoreBelowBoundIsPositive(p, k, s, x); }
  }

  lemma ScoreGrowsWithRate(p: real, p': real, k: real, y: real)
    requires y <= p <= p'
    ensures Score(p, k, y) <= Score(p', k, y)
  {
    SquaresGrow(p - y, p' - y);
    assert (y - p) * (y - p) == (p - y) * (p - y);
    assert (y - p') * (y - p') == (p' - y) * (p' - y);
  }

  /** A larger observed rate at the same sample size never lowers the bound. */
  lemma BoundGrowsWithRate(p: real, p': real, k: real, s: real, s': real)
    requires InDomain(p, k, s) && InDomain(p', k, s')
    requires p <= p'
    ensures Bound(p, k, s) <= Bound(p', k, s')
  {
    hide Score, IsSpread;
    var y := Bound(p', k, s');
    if y < Bound(p, k, s) {
      BoundRange(p, k, s);
      BoundIsRoot(p', k, s');
      ScoreGrowsWithRate(p, p', k, y);
      ScoreBelowBoundIsPositive(p, k, s, y);
    }
  }

  lemma SquaresGrow(u: real, v: real)
    requires 0.0 <= u <= v
    ensures u * u <= v * v
  {
    NonNegative(v - u, v + u);
    assert (v - u) * (v + u) == v * v - u * u;
  }

  /** The bound of a unanimous sample. */
  lemma BoundAtOne(k: real, s: real)
    requires InDomain(1.0, k, s)
    ensures Bound(1.0, k, s) == 1.0 / (1.0 + 2.0 * k)
  {
    SquareRootOrder(s, k);
    SquareRootOrder(k, s);
  }

  // ---- The code's formula ----

  /** k = z*z / (2n). */
  ghost function K(z: real, n: real): (k: real)
    requires n > 0.0
    ensures k >= 0.0
  {
    Denominator(z, z * z, n);
    DivideUnique(z * z, 2.0 * n, (z * z / n) / 2.0);
    z * z / (2.0 * n)
  }

  lemma DivideUnique(x: real, d: real, q: real)
    requires d != 0.0 && q * d == x
    ensures x / d == q
  {
  }

  lemma Fractions(z2: real, n: real, k: real)
    requires n > 0.0 && k == z2 / (2.0 * n)
    ensures z2 / n == 2.0 * k
    ensures z2 * (z2 / (4.0 * n * n)) == k * k
    ensures z2 == 2.0 * (n * k)
  {
    assert k * (2.0 * n) == z2;
    DivideUnique(z2, n, 2.0 * k);
    var m := 4.0 * n * n;
    Positive(n, n, n * n);
    assert m == 4.0 * (n * n);
    var q := z2 / m;
    assert q * m == z2;
    assert q * m == (q * (2.0 * n)) * (2.0 * n);
    assert (q * (2.0 * n) - k) * (2.0 * n) == 0.0;
    assert q * (2.0 * n) == k;
    assert z2 * q == k * (q * (2.0 * n));
  }

  lemma SpreadSquared(z: real, z2: real, n: real, v: real, k: real, r: real)
    requires n > 0.0 && z2 == z * z && k == z2 / (2.0 * n)
    requires r * r == v / n + z2 / (4.0 * n * n)
    ensures (z * r) * (z * r) == 2.0 * (k * v) + k * k
  {
    Fractions(z2, n, k);
    assert (z * r) * (z * r) == z2 * (r * r);
    assert z2 * (r * r) == z2 * (v / n) + z2 * (z2 / (4.0 * n * n));
    assert z2 * (v / n) == (z2 / n) * v;
  }

  ghost function Spread(sqrt: real -> real, p: real, n: real, z: real): real
    requires n > 0.0
  {
    z * sqrt(Radicand(p, n, z))
  }

  lemma RadicandSign(p: real, n: real, z: real)
    requires 0.0 <= p <= 1.0 && n > 0.0
    ensures Radicand(p, n, z) >= 0.0
  {
    NonNegative(p, 1.0 - p);
    DivideBounds(p * (1.0 - p), n, 0.0);
    Denominator(z, z * z, 4.0 * n * n) by {
      Positive(n, n, n * n);
      assert 4.0 * n * n == 4.0 * (n * n);
    }
  }

  ghost function Rate(successes: int, total: int): (p: real)
    requires 0 <= successes <= total && total > 0
    ensures 0.0 <= p <= 1.0
  {
    DivideBounds(successes as real, total as real, 0.0);
    DivideBounds(successes as real, total as real, 1.0);
    successes as real / total as real
  }

  lemma SpreadIsSpread(sqrt: real -> real, p: real, n: real, z: real)
    requires IsSqrt(sqrt)
    requires 0.0 <= p <= 1.0 && n > 0.0 && z >= 0.0
    ensures IsSpread(p, K(z, n), Spread(sqrt, p, n, z))
  {
    RadicandSign(p, n, z);
    var r := sqrt(Radicand(p, n, z));
    SpreadSquared(z, z * z, n, p * (1.0 - p), K(z, n), r);
    NonNegative(z, r);
  }

  lemma CodeComputesBound(sqrt: real -> real, successes: int, total: int, z: real)
    requires IsSqrt(sqrt)
    requires 0 <= successes <= total && total > 0 && z >= 0.0
    ensures var n := total as real;
            var p := Rate(successes, total);
            && InDomain(p, K(z, n), Spread(sqrt, p, n, z))
            && WilsonLowerBound(sqrt, successes, total, z) == Some(Bound(p, K(z, n), Spread(sqrt, p, n, z)))
  {
    hide Radicand, FromRoot, Bound;
    var n, p := total as real, Rate(successes, total);
    SpreadIsSpread(sqrt, p, n, z);
    RadicandSign(p, n, z);
    FormulaIsBound(p, n, z, sqrt(Radicand(p, n, z)), Spread(sqrt, p, n, z));
  }

  lemma FormulaIsBound(p: real, n: real, z: real, root: real, s: real)
    requires n > 0.0 && s == z * root
    requires InDomain(p, K(z, n), s)
    ensures FromRoot(p, n, z, root) == Bound(p, K(z, n), s)
  {
    hide IsSpread;
    var z2, k := z * z, K(z, n);
    Fractions(z2, n, k);
    BoundRange(p, k, s);
  }

  /** The result is a rate no larger than the observed one; nothing raises. */
  lemma ResultIsBelowRate(sqrt: real -> real, successes: int, total: int, z: real)
    requires IsSqrt(sqrt)
    requires 0 <= successes <= total && total > 0 && z >= 0.0
    ensures WilsonLowerBound(sqrt, successes, total, z).Some?
    ensures 0.0 <= WilsonLowerBound(sqrt, successes, total, z).value <= Rate(successes, total) <= 1.0
  {
    hide Bound, InDomain, WilsonLowerBound, Rate;
    var n, p := total as real, Rate(successes, total);
    CodeComputesBound(sqrt, successes, total, z);
    BoundRange(p, K(z, n), Spread(sqrt, p, n, z));
  }

  /** The result is the least rate that the score test at z accepts. */
  lemma ResultIsLeastAcceptedRate(sqrt: real -> real, successes: int, total: int, z: real, x: real)
    requires IsSqrt(sqrt)
    requires 0 <= successes <= total && total > 0 && z >= 0.0
    ensures WilsonLowerBound(sqrt, successes, total, z).Some?
    ensures Accepted(Rate(successes, total), total as real, z, WilsonLowerBound(sqrt, successes, total, z).value)
    ensures Accepted(Rate(successes, total), total as real, z, x) ==>
              WilsonLowerBound(sqrt, successes, total, z).value <= x
  {
    hide Bound, InDomain, WilsonLowerBound, Accepted, Score, Rate;
    var n, p := total as real, Rate(successes, total);
    var k, s := K(z, n), Spread(sqrt, p, n, z);
    CodeComputesBound(sqrt, successes, total, z);
    var b := Bound(p, k, s);
    BoundIsRoot(p, k, s);
    AcceptedIsScore(p, n, z, k, b);
    AcceptedIsScore(p, n, z, k, x);
    if x < b { ScoreBelowBoundIsPositive(p, k, s, x); }
  }

  lemma AcceptedIsScore(p: real, n: real, z: real, k: real, x: real)
    requires n > 0.0 && k == K(z, n)
    ensures Accepted(p, n, z, x) <==> Score(p, k, x) <= 0.0
  {
    var v, e := x * (1.0 - x), (p - x) * (p - x);
    Fractions(z * z, n, k);
    assert e == (x - p) * (x - p);
    assert (z * z) * v == 2.0 * (n * (k * v));
    var q := Score(p, k, x);
    assert n * e - (z * z) * v == n * q;
    SignOfProduct(n, q);
  }

  lemma SignOfProduct(n: real, q: real)
    requires n > 0.0
    ensures n * q <= 0.0 <==> q <= 0.0
  {
  }

  /** More successes out of the same number of trials never lower the result. */
  lemma ResultGrowsWithSuccesses(sqrt: real -> real, successes: int, more: int, total: int, z: real)
    requires IsSqrt(sqrt)
    requires 0 <= successes <= more <= total && total > 0 && z >= 0.0
    ensures WilsonLowerBound(sqrt, successes, total, z).Some? && WilsonLowerBound(sqrt, more, total, z).Some?
    ensures WilsonLowerBound(sqrt, successes, total, z).value <= WilsonLowerBound(sqrt, more, total, z).value
  {
    hide Bound, InDomain, WilsonLowerBound;
    var n, p, p' := total as real, Rate(successes, total), Rate(more, total);
    CodeComputesBound(sqrt, successes, total, z);
    CodeComputesBound(sqrt, more, total, z);
    DivideOrder(successes as real, more as real, n);
    BoundGrowsWithRate(p, p', K(z, n), Spread(sqrt, p, n, z), Spread(sqrt, p', n, z));
  }

  lemma DivideOrder(x: real, y: real, d: real)
    requires d > 0.0 && x <= y
    ensures x / d <= y / d
  {
  }

  /** The same rate observed on a larger sample never lowers the result. */
  lemma ResultGrowsWithSample(sqrt: real -> real, successes: int, total: int, successes': int, total': int, z: real)
    requires IsSqrt(sqrt)
    requires 0 <= successes <= total && 0 <= successes' <= total' && 0 < total <= total' && z >= 0.0
    requires successes * total' == successes' * total
    ensures WilsonLowerBound(sqrt, successes, total, z).Some? && WilsonLowerBound(sqrt, successes', total', z).Some?
    ensures WilsonLowerBound(sqrt, successes, total, z).value <= WilsonLowerBound(sqrt, successes', total', z).value
  {
    hide Bound, InDomain, WilsonLowerBound, Spread, K;
    var n, n', p := total as real, total' as real, Rate(successes, total);
    SameRate(successes, total, successes', total');
    CodeComputesBound(sqrt, successes, total, z);
    CodeComputesBound(sqrt, successes', total', z);
    SmallerK(z, n, n');
    BoundGrowsWithSample(p, K(z, n), Spread(sqrt, p, n, z), K(z, n'), Spread(sqrt, p, n', z));
  }

  lemma SameRate(successes: int, total: int, successes': int, total': int)
    requires 0 <= successes <= total && 0 <= successes' <= total' && 0 < total && 0 < total'
    requires successes * total' == successes' * total
    ensures Rate(successes', total') == Rate(successes, total)
  {
    var s, n, s', n' := successes as real, total as real, successes' as real, total' as real;
    assert s * n' == (successes * total') as real == s' * n;
    var q := s / n;
    assert q * n == s;
    assert (q * n') * n == s' * n;
    assert (q * n' - s') * n == 0.0;
    DivideUnique(s', n', q);
  }

  lemma SmallerK(z: real, n: real, n': real)
    requires 0.0 < n <= n'
    ensures K(z, n') <= K(z, n)
  {
    var k, k' := K(z, n), K(z, n');
    assert k * (2.0 * n) == z * z && k' * (2.0 * n') == z * z;
    NonNegative(k', n' - n);
    assert k' * (n' - n) == k' * n' - k' * n;
    SignOfProduct(n, k' - k);
  }

  /** n successes out of n give n / (n + z*z). */
  lemma ResultOfUnanimousSample(sqrt: real -> real, total: int, z: real)
    requires IsSqrt(sqrt)
    requires total > 0 && z >= 0.0
    ensures total as real + z * z > 0.0
    ensures WilsonLowerBound(sqrt, total, total, z) == Some(total as real / (total as real + z * z))
  {
    hide WilsonLowerBound, InDomain, Bound, Spread, Rate;
    var n := total as real;
    var k := K(z, n);
    CodeComputesBound(sqrt, total, total, z);
    UnanimousRate(total);
    BoundAtOne(k, Spread(sqrt, 1.0, n, z));
    Fractions(z * z, n, k);
    NonNegative(n, k);
    UnanimousFraction(n, z * z, k, 1.0 / (1.0 + 2.0 * k));
  }

  lemma UnanimousRate(total: int)
    requires total > 0
    ensures Rate(total, total) == 1.0
  {
  }

  lemma UnanimousFraction(n: real, z2: real, k: real, q: real)
    requires n > 0.0 && k >= 0.0 && z2 == 2.0 * (n * k) && n * k >= 0.0
    requires q == 1.0 / (1.0 + 2.0 * k)
    ensures n + z2 > 0.0 && q == n / (n + z2)
  {
    assert q * (1.0 + 2.0 * k) == 1.0;
    assert q * (n + z2) == n * (q * (1.0 + 2.0 * k));
    DivideUnique(n, n + z2, q);
  }

  // ---- Every input ----

  lemma RadicandInIntegers(s: real, n: real, z: real)
    requires n > 0.0
    ensures Radicand(s / n, n, z) * (4.0 * n * n) * n == 4.0 * s * (n - s) + z * z * n
  {
    var p, z2 := s / n, z * z;
    var m := 4.0 * n * n;
    Positive(n, n, n * n);
    assert m == 4.0 * (n * n);
    var q, t := z2 / m, p * (1.0 - p) / n;
    assert q * m == z2 && t * n == p * (1.0 - p) && p * n == s;
    assert t * m == 4.0 * ((t * n) * n) == 4.0 * (s * (1.0 - p));
    assert (s * (1.0 - p)) * n == s * (n - p * n);
    assert (t + q) * m * n == t * m * n + q * m * n;
  }

  lemma ScaledSign(x: real, m: real, n: real)
    requires m > 0.0 && n > 0.0
    ensures x < 0.0 <==> x * m * n < 0.0
  {
    if x < 0.0 {
      Positive(-x, m, -x * m);
      Positive(-x * m, n, -x * m * n);
    } else {
      NonNegative(x, m);
      NonNegative(x * m, n);
    }
  }

  /** No trials give 0. Otherwise the square root raises exactly when there are so many more successes
      than trials, or so many fewer than none, that 4 * successes * (successes - total) exceeds
      z * z * total. Whatever does not raise is not negative. */
  lemma RaisesExactly(sqrt: real -> real, successes: int, total: int, z: real)
    ensures total <= 0 ==> WilsonLowerBound(sqrt, successes, total, z) == Some(0.0)
    ensures WilsonLowerBound(sqrt, successes, total, z).None? <==>
              total > 0 && 4.0 * successes as real * (successes as real - total as real) > z * z * total as real
    ensures WilsonLowerBound(sqrt, successes, total, z).Some? ==>
              WilsonLowerBound(sqrt, successes, total, z).value >= 0.0
  {
    hide Radicand;
    if total > 0 {
      var n, s := total as real, successes as real;
      var r, m := Radicand(s / n, n, z), 4.0 * n * n;
      Positive(n, n, n * n);
      assert m == 4.0 * (n * n);
      RadicandInIntegers(s, n, z);
      ScaledSign(r, m, n);
      assert 4.0 * s * (n - s) == -(4.0 * s * (s - n));
      var root := sqrt(r);
      assert FromRoot(s / n, n, z, root) >= 0.0;
    }
  }
}
