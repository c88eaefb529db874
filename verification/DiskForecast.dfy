/** The disk forecast (backend/scheduler.py, compute_disk_forecast): an ordinary
    least-squares line through the recorded usage samples, over `real`. */
module DiskForecast {
  import opened Options

  const MIN_SAMPLES := 6
  const SECONDS_PER_DAY: real := 86400.0
  const FLAT_DENOMINATOR: real := 0.0000000001
  const FLAT_SLOPE: real := 0.001

  /** A stored sample; one whose fields do not parse is skipped by the forecast. */
  datatype Sample = Unreadable | Reading(ts: real, usedGb: real)

  datatype Trend = Stable | Normal | Warning | Critical

  datatype Forecast = Forecast(growthGbPerDay: real, daysUntilFull: Option<real>, trend: Trend)

  function Readable(history: seq<Sample>): (points: seq<Sample>)
    ensures forall p <- points :: p.Reading?
  {
    if history == [] then []
    else if history[0].Reading? then [history[0]] + Readable(history[1..])
    else Readable(history[1..])
  }

  predicate AllReadings(points: seq<Sample>) {
    forall p <- points :: p.Reading?
  }

  /** Days since the first sample. */
  function Days(points: seq<Sample>): (xs: seq<real>)
    requires AllReadings(points)
  {
    seq(|points|, i requires 0 <= i < |points| => (points[i].ts - points[0].ts) / SECONDS_PER_DAY)
  }

  function Used(points: seq<Sample>): (ys: seq<real>)
    requires AllReadings(points)
  {
    seq(|points|, i requires 0 <= i < |points| => points[i].usedGb)
  }

  /** The sum of the first k values. */
  function Total(a: seq<real>, k: nat): real
    requires k <= |a|
  {
    if k == 0 then 0.0 else Total(a, k - 1) + a[k - 1]
  }

  /** The sum of the first k products. */
  function Dot(a: seq<real>, b: seq<real>, k: nat): real
    requires k <= |a| == |b|
  {
    if k == 0 then 0.0 else Dot(a, b, k - 1) + a[k - 1] * b[k - 1]
  }

  function Covariation(a: seq<real>, b: seq<real>, k: nat): real
    requires k <= |a| == |b|
  {
    k as real * Dot(a, b, k) - Total(a, k) * Total(b, k)
  }

  function Denominator(xs: seq<real>): real {
    Covariation(xs, xs, |xs|)
  }

  function Slope(xs: seq<real>, ys: seq<real>): real
    requires |xs| == |ys|
    requires Denominator(xs) != 0.0
  {
    Covariation(xs, ys, |xs|) / Denominator(xs)
  }

  /** Python's round(), half to even, over the reals. */
  function RoundHalfEven(x: real): (r: int)
    ensures -0.5 <= r as real - x <= 0.5
    ensures x >= 0.0 ==> r >= 0
  {
    var f := x.Floor;
    var d := x - f as real;
    if d < 0.5 then f else if d > 0.5 then f + 1 else if f % 2 == 0 then f else f + 1
  }

  function Round(x: real, scale: real): (q: real)
    requires scale > 0.0
    ensures q * scale == RoundHalfEven(x * scale) as real
  {
    RoundHalfEven(x * scale) as real / scale
  }

  function TrendOf(days: real): Trend {
    if days <= 7.0 then Critical else if days <= 30.0 then Warning else Normal
  }

  function ComputeForecast(history: seq<Sample>, totalGb: real): Option<Forecast> {
    if |history| < MIN_SAMPLES then None else
    var points := Readable(history);
    if |points| < MIN_SAMPLES then None else
    var xs := Days(points);
    var ys := Used(points);
    var denom := Denominator(xs);
    if -FLAT_DENOMINATOR < denom < FLAT_DENOMINATOR then Some(Forecast(0.0, None, Stable)) else
    var slope := Slope(xs, ys);
    if slope <= FLAT_SLOPE then Some(Forecast(Round(slope, 1000.0), None, Stable)) else
    var days := Round((totalGb - ys[|ys| - 1]) / slope, 10.0);
    Some(Forecast(Round(slope, 1000.0), Some(days), TrendOf(days)))
  }

  // ---- The sums as sums over pairs of samples ----

  /** The sum over i < k of (a[i] - u) * (b[i] - v). */
  ghost function CrossSum(a: seq<real>, b: seq<real>, k: nat, u: real, v: real): real
    requires k <= |a| == |b|
  {
    if k == 0 then 0.0 else CrossSum(a, b, k - 1, u, v) + (a[k - 1] - u) * (b[k - 1] - v)
  }

  /** The sum over i < j < k of (a[i] - a[j]) * (b[i] - b[j]). */
  ghost function PairSum(a: seq<real>, b: seq<real>, k: nat): real
    requires k <= |a| == |b|
  {
    if k == 0 then 0.0 else PairSum(a, b, k - 1) + CrossSum(a, b, k - 1, a[k - 1], b[k - 1])
  }

  ghost function CrossFromSums(n: real, dot: real, sa: real, sb: real, u: real, v: real): real {
    dot - v * sa - u * sb + n * (u * v)
  }

  lemma CrossGrows(n: real, dot: real, sa: real, sb: real, u: real, v: real, x: real, y: real)
    ensures CrossFromSums(n + 1.0, dot + x * y, sa + x, sb + y, u, v)
         == CrossFromSums(n, dot, sa, sb, u, v) + (x - u) * (y - v)
  {
  }

  lemma CrossStep(a: seq<real>, b: seq<real>, k: nat, u: real, v: real)
    requires k < |a| == |b|
    ensures CrossFromSums((k + 1) as real, Dot(a, b, k + 1), Total(a, k + 1), Total(b, k + 1), u, v)
         == CrossFromSums(k as real, Dot(a, b, k), Total(a, k), Total(b, k), u, v) + (a[k] - u) * (b[k] - v)
  {
    CrossGrows(k as real, Dot(a, b, k), Total(a, k), Total(b, k), u, v, a[k], b[k]);
    assert (k + 1) as real == k as real + 1.0;
  }

  lemma {:induction false} CrossSumExpands(a: seq<real>, b: seq<real>, k: nat, u: real, v: real)
    requires k <= |a| == |b|
    ensures CrossSum(a, b, k, u, v)
         == CrossFromSums(k as real, Dot(a, b, k), Total(a, k), Total(b, k), u, v)
  {
    if k != 0 {
      CrossSumExpands(a, b, k - 1, u, v);
      CrossStep(a, b, k - 1, u, v);
    }
  }

  lemma CovariationGrows(n: real, dot: real, sa: real, sb: real, u: real, v: real)
    ensures (n + 1.0) * (dot + u * v) - (sa + u) * (sb + v)
         == (n * dot - sa * sb) + CrossFromSums(n, dot, sa, sb, u, v)
  {
    assert (n + 1.0) * (dot + u * v) == n * dot + n * (u * v) + dot + u * v;
    assert (sa + u) * (sb + v) == sa * sb + v * sa + u * sb + u * v;
  }

  lemma CovariationStep(a: seq<real>, b: seq<real>, k: nat)
    requires k < |a| == |b|
    ensures Covariation(a, b, k + 1) == Covariation(a, b, k)
              + CrossFromSums(k as real, Dot(a, b, k), Total(a, k), Total(b, k), a[k], b[k])
  {
    CovariationGrows(k as real, Dot(a, b, k), Total(a, k), Total(b, k), a[k], b[k]);
    assert (k + 1) as real == k as real + 1.0;
  }

  /** The regression sums are sums over pairs of samples. */
  lemma {:induction false} CovariationIsPairSum(a: seq<real>, b: seq<real>, k: nat)
    requires k <= |a| == |b|
    ensures Covariation(a, b, k) == PairSum(a, b, k)
  {
    if k != 0 {
      CovariationIsPairSum(a, b, k - 1);
      CrossSumExpands(a, b, k - 1, a[k - 1], b[k - 1]);
      CovariationStep(a, b, k - 1);
    }
  }

  lemma ProductPositive(d: real, e: real, p: real)
    requires d > 0.0 && e > 0.0 && p == d * e
    ensures p > 0.0
  {
  }

  lemma SquareSign(x: real, s: real)
    requires s == x * x
    ensures s >= 0.0
    ensures s == 0.0 ==> x == 0.0
  {
    if x > 0.0 {
      ProductPositive(x, x, s);
    } else if x < 0.0 {
      assert s == (-x) * (-x);
      ProductPositive(-x, -x, s);
    }
  }

  ghost function Square(x: real): (s: real)
    ensures s == x * x
    ensures s >= 0.0
    ensures s == 0.0 <==> x == 0.0
  {
    SquareSign(x, x * x);
    x * x
  }

  lemma {:induction false} CrossSumSquares(a: seq<real>, k: nat, u: real)
    requires k <= |a|
    ensures CrossSum(a, a, k, u, u) >= 0.0
    ensures CrossSum(a, a, k, u, u) == 0.0 <==> forall i | 0 <= i < k :: a[i] == u
  {
    if k != 0 {
      CrossSumSquares(a, k - 1, u);
      assert (a[k - 1] - u) * (a[k - 1] - u) == Square(a[k - 1] - u);
    }
  }

  lemma {:induction false} PairSumSquares(a: seq<real>, k: nat)
    requires k <= |a|
    ensures PairSum(a, a, k) >= 0.0
    ensures PairSum(a, a, k) == 0.0 <==> forall i, j | 0 <= i < k && 0 <= j < k :: a[i] == a[j]
  {
    if k != 0 {
      PairSumSquares(a, k - 1);
      CrossSumSquares(a, k - 1, a[k - 1]);
    }
  }

  /** The number the code divides by is never negative, and it is zero exactly when
      all the samples carry the same time. */
  lemma DenominatorSign(xs: seq<real>)
    ensures Denominator(xs) >= 0.0
    ensures Denominator(xs) == 0.0 <==> forall i, j | 0 <= i < |xs| && 0 <= j < |xs| :: xs[i] == xs[j]
  {
    CovariationIsPairSum(xs, xs, |xs|);
    PairSumSquares(xs, |xs|);
  }

  // ---- The slope is the least-squares slope ----

  /** The values of the line a + b*x at the sample times. */
  ghost function Line(xs: seq<real>, a: real, b: real): (f: seq<real>)
    ensures |f| == |xs|
    ensures forall i | 0 <= i < |xs| :: f[i] == a + b * xs[i]
  {
    seq(|xs|, i requires 0 <= i < |xs| => a + b * xs[i])
  }

  ghost function Minus(ys: seq<real>, f: seq<real>): (r: seq<real>)
    requires |ys| == |f|
    ensures |r| == |ys|
    ensures forall i | 0 <= i < |ys| :: r[i] == ys[i] - f[i]
  {
    seq(|ys|, i requires 0 <= i < |ys| => ys[i] - f[i])
  }

  /** The sum of the squared residuals of the line a + b*x. */
  ghost function SquaredError(xs: seq<real>, ys: seq<real>, a: real, b: real): real
    requires |xs| == |ys|
  {
    var r := Minus(ys, Line(xs, a, b));
    Dot(r, r, |xs|)
  }

  lemma Distributes(c: real, s: real, t: real)
    ensures c * (s + t) == c * s + c * t
  {
  }

  lemma {:induction false} DotOfSum(w: seq<real>, r: seq<real>, e: seq<real>, k: nat)
    requires k <= |w| == |r| == |e|
    requires forall i | 0 <= i < |w| :: w[i] == r[i] + e[i]
    ensures Dot(w, w, k) == Dot(r, r, k) + 2.0 * Dot(r, e, k) + Dot(e, e, k)
  {
    if k != 0 {
      DotOfSum(w, r, e, k - 1);
      var x, y := r[k - 1], e[k - 1];
      assert (x + y) * (x + y) == x * x + 2.0 * (x * y) + y * y;
    }
  }

  lemma {:induction false} DotOfDifference(w: seq<real>, r: seq<real>, e: seq<real>, x: seq<real>, k: nat)
    requires k <= |w| == |r| == |e| == |x|
    requires forall i | 0 <= i < |w| :: w[i] == r[i] - e[i]
    ensures Total(w, k) == Total(r, k) - Total(e, k)
    ensures Dot(x, w, k) == Dot(x, r, k) - Dot(x, e, k)
  {
    if k != 0 {
      DotOfDifference(w, r, e, x, k - 1);
      assert x[k - 1] * w[k - 1] == x[k - 1] * r[k - 1] - x[k - 1] * e[k - 1];
    }
  }

  lemma AffineTerm(a: real, b: real, x: real, r: real, tr: real, dr: real)
    ensures r * (a + b * x) == a * r + b * (r * x)
    ensures a * (tr + r) == a * tr + a * r
    ensures b * (dr + r * x) == b * dr + b * (r * x)
  {
  }

  lemma {:induction false} DotOfLine(r: seq<real>, f: seq<real>, x: seq<real>, a: real, b: real, k: nat)
    requires k <= |r| == |f| == |x|
    requires forall i | 0 <= i < |x| :: f[i] == a + b * x[i]
    ensures Dot(r, f, k) == a * Total(r, k) + b * Dot(r, x, k)
  {
    if k != 0 {
      DotOfLine(r, f, x, a, b, k - 1);
      AffineTerm(a, b, x[k - 1], r[k - 1], Total(r, k - 1), Dot(r, x, k - 1));
    }
  }

  lemma {:induction false} TotalOfLine(f: seq<real>, x: seq<real>, a: real, b: real, k: nat)
    requires k <= |f| == |x|
    requires forall i | 0 <= i < |x| :: f[i] == a + b * x[i]
    ensures Total(f, k) == k as real * a + b * Total(x, k)
  {
    if k != 0 {
      TotalOfLine(f, x, a, b, k - 1);
      Distributes(b, Total(x, k - 1), x[k - 1]);
      assert k as real * a == (k - 1) as real * a + a;
    }
  }

  ghost function Intercept(xs: seq<real>, ys: seq<real>): real
    requires |xs| == |ys| > 0
    requires Denominator(xs) != 0.0
  {
    (Total(ys, |xs|) - Slope(xs, ys) * Total(xs, |xs|)) / |xs| as real
  }

  /** The normal equations: a fit whose residuals r sum to zero, and to zero weighted by x. */
  lemma NormalEquations(n: real, sx: real, sy: real, sxy: real, sxx: real, a: real, b: real, d: real, c: real)
    requires n > 0.0 && d == n * sxx - sx * sx && d != 0.0
    requires c == n * sxy - sx * sy && b == c / d
    requires a == (sy - b * sx) / n
    ensures sy == n * a + b * sx
    ensures sxy == a * sx + b * sxx
  {
    assert n * a == sy - b * sx;
    assert b * d == n * sxy - sx * sy;
    assert b * d == n * (b * sxx) - (b * sx) * sx;
    assert n * (a * sx) == (n * a) * sx == sy * sx - (b * sx) * sx;
    assert n * sxy == n * (a * sx) + n * (b * sxx);
    assert n * (sxy - (a * sx + b * sxx)) == 0.0;
  }

  lemma {:induction false} DotCommutes(a: seq<real>, b: seq<real>, k: nat)
    requires k <= |a| == |b|
    ensures Dot(a, b, k) == Dot(b, a, k)
  {
    if k != 0 { DotCommutes(a, b, k - 1); }
  }

  lemma FitParts(xs: seq<real>, ys: seq<real>, n: nat)
    requires n == |xs| == |ys| > 0
    requires Denominator(xs) != 0.0
    ensures Denominator(xs) == n as real * Dot(xs, xs, n) - Total(xs, n) * Total(xs, n)
    ensures Covariation(xs, ys, n) == n as real * Dot(xs, ys, n) - Total(xs, n) * Total(ys, n)
    ensures Slope(xs, ys) == Covariation(xs, ys, n) / Denominator(xs)
    ensures Intercept(xs, ys) == (Total(ys, n) - Slope(xs, ys) * Total(xs, n)) / n as real
  {
    hide Total, Dot;
  }

  lemma FitSatisfiesNormalEquations(xs: seq<real>, ys: seq<real>, a: real, b: real, n: nat)
    requires n == |xs| == |ys| > 0
    requires Denominator(xs) != 0.0
    requires a == Intercept(xs, ys) && b == Slope(xs, ys)
    ensures Total(ys, n) == n as real * a + b * Total(xs, n)
    ensures Dot(xs, ys, n) == a * Total(xs, n) + b * Dot(xs, xs, n)
  {
    hide Total, Dot, Denominator, Covariation, Slope, Intercept;
    FitParts(xs, ys, n);
    NormalEquations(n as real, Total(xs, n), Total(ys, n), Dot(xs, ys, n), Dot(xs, xs, n), a, b,
                    Denominator(xs), Covariation(xs, ys, n));
  }

  /** The slope and intercept of the forecast minimise the squared error over all lines,
      and no other line reaches the minimum. */
  lemma SlopeMinimisesSquaredError(xs: seq<real>, ys: seq<real>, a: real, b: real)
    requires |xs| == |ys| > 0
    requires Denominator(xs) != 0.0
    ensures SquaredError(xs, ys, Intercept(xs, ys), Slope(xs, ys)) <= SquaredError(xs, ys, a, b)
    ensures SquaredError(xs, ys, a, b) <= SquaredError(xs, ys, Intercept(xs, ys), Slope(xs, ys)) ==>
              a == Intercept(xs, ys) && b == Slope(xs, ys)
  {
    var a', b' := Intercept(xs, ys), Slope(xs, ys);
    FitSatisfiesNormalEquations(xs, ys, a', b', |xs|);
    DenominatorSign(xs);
    NormalEquationsMinimise(xs, ys, a, b, a', b', |xs|);
  }

  lemma NormalEquationsMinimise(xs: seq<real>, ys: seq<real>, a: real, b: real, a': real, b': real, n: nat)
    requires n == |xs| == |ys| > 0
    requires Total(ys, n) == n as real * a' + b' * Total(xs, n)
    requires Dot(xs, ys, n) == a' * Total(xs, n) + b' * Dot(xs, xs, n)
    requires exists i, j | 0 <= i < n && 0 <= j < n :: xs[i] != xs[j]
    ensures SquaredError(xs, ys, a', b') <= SquaredError(xs, ys, a, b)
    ensures SquaredError(xs, ys, a, b) <= SquaredError(xs, ys, a', b') ==> a == a' && b == b'
  {
    hide Total, Dot;
    var r, w := Minus(ys, Line(xs, a', b')), Minus(ys, Line(xs, a, b));
    var e := Line(xs, a' - a, b' - b);
    ResidualSumsVanish(xs, ys, a', b', Line(xs, a', b'), r, n);
    ResidualsAreOrthogonal(xs, r, e, a' - a, b' - b, n);
    ResidualsDiffer(xs, ys, a, b, a', b', r, w, e);
    DotOfSum(w, r, e, n);
    DotSquareSign(e, n);
    if Dot(e, e, n) == 0.0 {
      ZeroLine(xs, a' - a, b' - b, e);
    }
  }

  lemma ResidualsDiffer(xs: seq<real>, ys: seq<real>, a: real, b: real, a': real, b': real,
                        r: seq<real>, w: seq<real>, e: seq<real>)
    requires |xs| == |ys|
    requires r == Minus(ys, Line(xs, a', b')) && w == Minus(ys, Line(xs, a, b)) && e == Line(xs, a' - a, b' - b)
    ensures forall i | 0 <= i < |xs| :: w[i] == r[i] + e[i]
  {
    forall i | 0 <= i < |xs| ensures w[i] == r[i] + e[i] {
      LinesDiffer(a, b, a', b', xs[i]);
    }
  }

  lemma ZeroLine(xs: seq<real>, da: real, db: real, e: seq<real>)
    requires e == Line(xs, da, db)
    requires exists i, j | 0 <= i < |xs| && 0 <= j < |xs| :: xs[i] != xs[j]
    requires forall i | 0 <= i < |e| :: e[i] == 0.0
    ensures da == 0.0 && db == 0.0
  {
    var i, j :| 0 <= i < |xs| && 0 <= j < |xs| && xs[i] != xs[j];
    assert e[i] == 0.0 && e[j] == 0.0;
    SameLine(da, db, xs[i], xs[j]);
  }

  lemma LinesDiffer(a: real, b: real, a': real, b': real, x: real)
    ensures (a' - a) + (b' - b) * x == (a' + b' * x) - (a + b * x)
  {
  }

  lemma SameLine(da: real, db: real, x: real, y: real)
    requires x != y
    requires da + db * x == 0.0 && da + db * y == 0.0
    ensures da == 0.0 && db == 0.0
  {
    assert db * (x - y) == 0.0;
  }

  lemma {:induction false} DotSquareSign(e: seq<real>, k: nat)
    requires k <= |e|
    ensures Dot(e, e, k) >= 0.0
    ensures Dot(e, e, k) == 0.0 ==> forall i | 0 <= i < k :: e[i] == 0.0
  {
    if k != 0 {
      DotSquareSign(e, k - 1);
      assert e[k - 1] * e[k - 1] == Square(e[k - 1]);
    }
  }

  lemma ResidualSumsVanish(xs: seq<real>, ys: seq<real>, a: real, b: real, f: seq<real>, r: seq<real>, n: nat)
    requires n == |xs| == |ys|
    requires f == Line(xs, a, b) && r == Minus(ys, f)
    requires Total(ys, n) == n as real * a + b * Total(xs, n)
    requires Dot(xs, ys, n) == a * Total(xs, n) + b * Dot(xs, xs, n)
    ensures Total(r, n) == 0.0 && Dot(r, xs, n) == 0.0
  {
    TotalOfLine(f, xs, a, b, n);
    DotOfLine(xs, f, xs, a, b, n);
    DotOfDifference(r, ys, f, xs, n);
    DotCommutes(xs, r, n);
  }

  lemma ResidualsAreOrthogonal(xs: seq<real>, r: seq<real>, e: seq<real>, da: real, db: real, n: nat)
    requires n == |xs| == |r|
    requires e == Line(xs, da, db)
    requires Total(r, n) == 0.0 && Dot(r, xs, n) == 0.0
    ensures Dot(r, e, n) == 0.0
  {
    hide Total, Dot;
    DotOfLine(r, e, xs, da, db, n);
    assert da * 0.0 == 0.0 && db * 0.0 == 0.0;
  }

  // ---- What the slope does on particular samples ----

  lemma {:induction false} ZeroResiduals(r: seq<real>, k: nat)
    requires k <= |r|
    requires forall i | 0 <= i < |r| :: r[i] == 0.0
    ensures Dot(r, r, k) == 0.0
  {
    if k != 0 { ZeroResiduals(r, k - 1); }
  }

  /** Samples that lie on a line get exactly the rate of that line. */
  lemma CollinearSamplesGetTheirRate(xs: seq<real>, ys: seq<real>, a: real, b: real)
    requires |xs| == |ys| > 0
    requires Denominator(xs) != 0.0
    requires forall i | 0 <= i < |xs| :: ys[i] == a + b * xs[i]
    ensures Slope(xs, ys) == b
  {
    var r := Minus(ys, Line(xs, a, b));
    ZeroResiduals(r, |xs|);
    var r' := Minus(ys, Line(xs, Intercept(xs, ys), Slope(xs, ys)));
    DotSquareSign(r', |xs|);
    SlopeMinimisesSquaredError(xs, ys, a, b);
  }

  ghost predicate Shifted(a: seq<real>, a': seq<real>, c: real) {
    |a| == |a'| && forall i | 0 <= i < |a| :: a'[i] == a[i] + c
  }

  ghost function Times(x: real, y: real): real {
    x * y
  }

  lemma CrossSumStep(a: seq<real>, b: seq<real>, k: nat, u: real, v: real)
    requires 0 < k <= |a| == |b|
    ensures CrossSum(a, b, k, u, v) == CrossSum(a, b, k - 1, u, v) + Times(a[k - 1] - u, b[k - 1] - v)
  {
  }

  lemma {:induction false} CrossSumShift(a: seq<real>, b: seq<real>, a': seq<real>, b': seq<real>, k: nat,
                                         u: real, v: real, c: real, d: real)
    requires k <= |a| == |b|
    requires Shifted(a, a', c) && Shifted(b, b', d)
    ensures CrossSum(a', b', k, u + c, v + d) == CrossSum(a, b, k, u, v)
  {
    if k != 0 {
      hide CrossSum, Times;
      CrossSumShift(a, b, a', b', k - 1, u, v, c, d);
      CrossSumStep(a, b, k, u, v);
      CrossSumStep(a', b', k, u + c, v + d);
      assert a'[k - 1] - (u + c) == a[k - 1] - u && b'[k - 1] - (v + d) == b[k - 1] - v;
    }
  }

  lemma {:induction false} PairSumShift(a: seq<real>, b: seq<real>, a': seq<real>, b': seq<real>, k: nat,
                                        c: real, d: real)
    requires k <= |a| == |b|
    requires Shifted(a, a', c) && Shifted(b, b', d)
    ensures PairSum(a', b', k) == PairSum(a, b, k)
  {
    if k != 0 {
      PairSumShift(a, b, a', b', k - 1, c, d);
      CrossSumShift(a, b, a', b', k - 1, a[k - 1], b[k - 1], c, d);
    }
  }

  /** The origin of the time axis does not matter. */
  lemma SlopeIgnoresOrigin(xs: seq<real>, ys: seq<real>, xs': seq<real>, c: real)
    requires |xs| == |ys|
    requires Shifted(xs, xs', c)
    ensures Denominator(xs') == Denominator(xs)
    ensures Denominator(xs) != 0.0 ==> Slope(xs', ys) == Slope(xs, ys)
  {
    var n := |xs|;
    PairSumShift(xs, xs, xs', xs', n, c, c);
    PairSumShift(xs, ys, xs', ys, n, c, 0.0);
    CovariationIsPairSum(xs, xs, n);
    CovariationIsPairSum(xs', xs', n);
    CovariationIsPairSum(xs, ys, n);
    CovariationIsPairSum(xs', ys, n);
  }

  ghost predicate NonDecreasing(a: seq<real>) {
    forall i, j | 0 <= i < j < |a| :: a[i] <= a[j]
  }

  ghost function SameSignProduct(x: real, y: real): (p: real)
    requires (x >= 0.0 && y >= 0.0) || (x <= 0.0 && y <= 0.0)
    ensures p == x * y
    ensures p >= 0.0
  {
    x * y
  }

  lemma {:induction false} CrossSumOfMonotone(a: seq<real>, b: seq<real>, k: nat, m: nat)
    requires k <= m < |a| == |b|
    requires NonDecreasing(a) && NonDecreasing(b)
    ensures CrossSum(a, b, k, a[m], b[m]) >= 0.0
  {
    if k != 0 {
      CrossSumOfMonotone(a, b, k - 1, m);
      var u, v := a[m], b[m];
      assert (a[k - 1] - u) * (b[k - 1] - v) == SameSignProduct(a[k - 1] - u, b[k - 1] - v);
    }
  }

  lemma {:induction false} PairSumOfMonotone(a: seq<real>, b: seq<real>, k: nat)
    requires k <= |a| == |b|
    requires NonDecreasing(a) && NonDecreasing(b)
    ensures PairSum(a, b, k) >= 0.0
  {
    if k != 0 {
      PairSumOfMonotone(a, b, k - 1);
      CrossSumOfMonotone(a, b, k - 1, k - 1);
    }
  }

  lemma QuotientNonNegative(x: real, d: real)
    requires x >= 0.0 && d > 0.0
    ensures x / d >= 0.0
  {
  }

  /** Usage that never falls never gets a negative slope. */
  lemma SlopeOfGrowingUsage(xs: seq<real>, ys: seq<real>)
    requires |xs| == |ys|
    requires NonDecreasing(xs) && NonDecreasing(ys)
    requires Denominator(xs) != 0.0
    ensures Slope(xs, ys) >= 0.0
  {
    hide Covariation;
    CovariationIsPairSum(xs, ys, |xs|);
    PairSumOfMonotone(xs, ys, |xs|);
    DenominatorSign(xs);
    QuotientNonNegative(Covariation(xs, ys, |xs|), Denominator(xs));
  }

  // ---- The forecast itself ----

  lemma RoundIsClose(x: real, scale: real)
    requires scale > 0.0
    ensures -0.5 <= (Round(x, scale) - x) * scale <= 0.5
    ensures x >= 0.0 ==> Round(x, scale) >= 0.0
  {
    hide RoundHalfEven;
    var q, r := Round(x, scale), RoundHalfEven(x * scale) as real;
    assert q * scale == r;
    assert (q - x) * scale == q * scale - x * scale;
    if x >= 0.0 {
      assert x * scale == SameSignProduct(x, scale);
      QuotientNonNegative(r, scale);
    }
  }

  /** The forecast reads the history only through the parsable samples' spacing and usage:
      recording the same usage at other absolute times changes nothing. */
  lemma ForecastIgnoresOrigin(history: seq<Sample>, history': seq<Sample>, shift: real, totalGb: real)
    requires |history| == |history'|
    requires forall i | 0 <= i < |history| ::
               history'[i] == if history[i].Reading? then history[i].(ts := history[i].ts + shift) else Unreadable
    ensures ComputeForecast(history', totalGb) == ComputeForecast(history, totalGb)
  {
    ReadableShift(history, history', shift);
    var p, p' := Readable(history), Readable(history');
    assert Days(p') == Days(p) && Used(p') == Used(p);
  }

  lemma {:induction false} ReadableShift(history: seq<Sample>, history': seq<Sample>, shift: real)
    requires |history| == |history'|
    requires forall i | 0 <= i < |history| ::
               history'[i] == if history[i].Reading? then history[i].(ts := history[i].ts + shift) else Unreadable
    ensures |Readable(history')| == |Readable(history)|
    ensures forall i | 0 <= i < |Readable(history)| ::
              Readable(history')[i] == Readable(history)[i].(ts := Readable(history)[i].ts + shift)
  {
    if history != [] { ReadableShift(history[1..], history'[1..], shift); }
  }

  /** A disk that fills at b GB per day is forecast to fill at b GB per day, and the days left
      are what is left divided by b, both up to the rounding. */
  lemma ForecastOfSteadyGrowth(history: seq<Sample>, totalGb: real, a: real, b: real)
    requires |Readable(history)| >= MIN_SAMPLES
    requires forall i | 0 <= i < |Readable(history)| :: Used(Readable(history))[i] == a + b * Days(Readable(history))[i]
    requires Denominator(Days(Readable(history))) >= FLAT_DENOMINATOR && b > FLAT_SLOPE
    ensures ComputeForecast(history, totalGb).Some?
    ensures var f := ComputeForecast(history, totalGb).value;
            var ys := Used(Readable(history));
            && -0.0005 <= f.growthGbPerDay - b <= 0.0005
            && f.daysUntilFull.Some?
            && -0.05 <= f.daysUntilFull.value - (totalGb - ys[|ys| - 1]) / b <= 0.05
            && f.trend == TrendOf(f.daysUntilFull.value)
  {
    hide Covariation, Denominator, Slope;
    var p := Readable(history);
    ReadableShorter(history);
    CollinearSamplesGetTheirRate(Days(p), Used(p), a, b);
    RoundIsClose(b, 1000.0);
    RoundIsClose((totalGb - Used(p)[|p| - 1]) / b, 10.0);
  }

  lemma {:induction false} ReadableShorter(history: seq<Sample>)
    ensures |Readable(history)| <= |history|
  {
    if history != [] { ReadableShorter(history[1..]); }
  }

  /** Exactly when a fill date is forecast. */
  lemma ForecastPredictsExactly(history: seq<Sample>, totalGb: real)
    ensures ComputeForecast(history, totalGb).None? <==> |Readable(history)| < MIN_SAMPLES
    ensures ComputeForecast(history, totalGb).Some? && ComputeForecast(history, totalGb).value.daysUntilFull.Some? <==>
              && |Readable(history)| >= MIN_SAMPLES
              && Denominator(Days(Readable(history))) >= FLAT_DENOMINATOR
              && Slope(Days(Readable(history)), Used(Readable(history))) > FLAT_SLOPE
  {
    hide Covariation, Slope;
    ReadableShorter(history);
    DenominatorSign(Days(Readable(history)));
  }

  /** Usage that never falls over time never gets a negative growth. */
  lemma ForecastOfGrowingUsage(history: seq<Sample>, totalGb: real)
    requires forall i, j | 0 <= i < j < |Readable(history)| ::
               && Readable(history)[i].ts <= Readable(history)[j].ts
               && Readable(history)[i].usedGb <= Readable(history)[j].usedGb
    ensures ComputeForecast(history, totalGb).None? || ComputeForecast(history, totalGb).value.growthGbPerDay >= 0.0
  {
    hide Covariation, Denominator, Slope, Round;
    var xs, ys := Days(Readable(history)), Used(Readable(history));
    assert NonDecreasing(xs) && NonDecreasing(ys);
    if Denominator(xs) != 0.0 {
      SlopeOfGrowingUsage(xs, ys);
      RoundIsClose(Slope(xs, ys), 1000.0);
    }
  }

  // ---- The forecast in numbers ----

  /** The nearest whole number; of two equally near ones the even one. */
  lemma RoundHalfEvenExactly(x: real, m: int)
    ensures var r := RoundHalfEven(x);
            var off := if r as real < x then x - r as real else r as real - x;
            var other := if m as real < x then x - m as real else m as real - x;
            off <= other && (off == other && m != r ==> r % 2 == 0)
  {
    var f := x.Floor;
    assert f as real <= x < f as real + 1.0;
    assert m <= f || m >= f + 1;
  }

  /** A sample that does not parse might as well not have been stored. */
  lemma UnreadableIsIgnored(before: seq<Sample>, after: seq<Sample>, totalGb: real)
    ensures ComputeForecast(before + [Unreadable] + after, totalGb) == ComputeForecast(before + after, totalGb)
  {
    hide Readable, ComputeForecast;
    ReadableOfConcat(before + [Unreadable], after);
    ReadableOfConcat(before, [Unreadable]);
    ReadableOfConcat(before, after);
    NothingReadable();
    assert Readable(before) + [] == Readable(before);
    SameReadings(before + [Unreadable] + after, before + after, totalGb);
  }

  lemma NothingReadable()
    ensures Readable([Unreadable]) == []
  {
    assert [Unreadable][1..] == [];
  }

  lemma SameReadings(history: seq<Sample>, history': seq<Sample>, totalGb: real)
    requires Readable(history) == Readable(history')
    ensures ComputeForecast(history, totalGb) == ComputeForecast(history', totalGb)
  {
    hide Readable, Days, Used, Denominator, Slope, Round, TrendOf;
    ReadableShorter(history);
    ReadableShorter(history');
  }

  lemma {:induction false} ReadableOfConcat(a: seq<Sample>, b: seq<Sample>)
    ensures Readable(a + b) == Readable(a) + Readable(b)
  {
    if a == [] {
      assert a + b == b;
    } else {
      ReadableOfConcat(a[1..], b);
      assert (a + b)[1..] == a[1..] + b;
    }
  }

  lemma {:induction false} ReadingsAreReadable(history: seq<Sample>)
    requires forall i | 0 <= i < |history| :: history[i].Reading?
    ensures Readable(history) == history
  {
    if history != [] {
      ReadingsAreReadable(history[1..]);
    }
  }

  lemma DaysAndUsage(history: seq<Sample>, xs: seq<real>, ys: seq<real>)
    requires |xs| == |ys| == |history| && AllReadings(history)
    requires forall i | 0 <= i < |history| ::
               xs[i] * 86400.0 == history[i].ts - history[0].ts && ys[i] == history[i].usedGb
    ensures Days(history) == xs && Used(history) == ys
  {
    hide Readable, Denominator, Slope;
    forall i | 0 <= i < |history| ensures Days(history)[i] == xs[i] {
      DividedBack(xs[i], history[i].ts - history[0].ts);
    }
  }

  lemma DividedBack(days: real, seconds: real)
    requires days * 86400.0 == seconds
    ensures seconds / SECONDS_PER_DAY == days
  {
  }

  /** The sums over all pairs of times, and of times and usages. */
  lemma PairForm(history: seq<Sample>, xs: seq<real>, ys: seq<real>)
    requires |xs| == |ys| == |history| && forall i | 0 <= i < |history| :: history[i].Reading?
    requires forall i | 0 <= i < |history| ::
               xs[i] * 86400.0 == history[i].ts - history[0].ts && ys[i] == history[i].usedGb
    ensures Readable(history) == history && Days(history) == xs && Used(history) == ys
    ensures Denominator(xs) == PairSum(xs, xs, |xs|) >= 0.0
    ensures Denominator(xs) != 0.0 ==> Slope(xs, ys) == PairSum(xs, ys, |xs|) / PairSum(xs, xs, |xs|)
  {
    hide Covariation, PairSum, Readable, Days, Used;
    ReadingsAreReadable(history);
    DaysAndUsage(history, xs, ys);
    CovariationIsPairSum(xs, xs, |xs|);
    CovariationIsPairSum(xs, ys, |xs|);
    DenominatorSign(xs);
  }

  /** The forecast of readable samples, xs being their times in days from the first and ys their usage.
      Fewer than six give none. If the times spread too little, the disk is stable. Otherwise the slope,
      rounded to three digits, is the growth; a slope of at most 0.001 GB per day is stable. Above that
      the days left, rounded to one digit, are critical up to 7, a warning up to 30, and else normal. */
  lemma ForecastExactly(history: seq<Sample>, totalGb: real, xs: seq<real>, ys: seq<real>)
    requires |xs| == |ys| == |history| && forall i | 0 <= i < |history| :: history[i].Reading?
    requires forall i | 0 <= i < |history| ::
               xs[i] * 86400.0 == history[i].ts - history[0].ts && ys[i] == history[i].usedGb
    ensures ComputeForecast(history, totalGb).None? <==> |history| < 6
    ensures |history| >= 6 && PairSum(xs, xs, |xs|) < 0.0000000001 ==>
              ComputeForecast(history, totalGb) == Some(Forecast(0.0, None, Stable))
    ensures |history| >= 6 && PairSum(xs, xs, |xs|) >= 0.0000000001 ==>
              var slope := PairSum(xs, ys, |xs|) / PairSum(xs, xs, |xs|);
              var f := ComputeForecast(history, totalGb).value;
              && f.growthGbPerDay * 1000.0 == RoundHalfEven(slope * 1000.0) as real
              && if slope <= 0.001 then f.daysUntilFull == None && f.trend == Stable
                 else && f.daysUntilFull.Some?
                      && f.daysUntilFull.value * 10.0 == RoundHalfEven((totalGb - ys[|ys| - 1]) / slope * 10.0) as real
                      && f.trend == (if f.daysUntilFull.value > 30.0 then Normal
                                     else if f.daysUntilFull.value > 7.0 then Warning else Critical)
  {
    hide Denominator, Slope, PairSum, RoundHalfEven, Readable, Days, Used;
    PairForm(history, xs, ys);
  }
}
