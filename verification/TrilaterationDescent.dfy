/** Where the solver's steps lead: its slopes are the residuals' own derivatives, and where the residuals are planar the
    candidate of every pass fits strictly better. */
module TrilaterationDescent {
  import opened Words
  import opened NavTypes
  import opened Trilateration

  // ---- the slopes -------------------------------------------------------

  /** A residual that is quadratic in latitude and longitude. */
  datatype Quadratic = Quadratic(base: real, lat: real, lon: real, latLat: real, latLon: real, lonLon: real)

  function ValueAt(q: Quadratic, u: real, v: real): real {
    q.base + q.lat * u + q.lon * v + q.latLat * (u * u) + q.latLon * (u * v) + q.lonLon * (v * v)
  }

  function LatDerivative(q: Quadratic, u: real, v: real): real {
    q.lat + 2.0 * (q.latLat * u) + q.latLon * v
  }

  function LonDerivative(q: Quadratic, u: real, v: real): real {
    q.lon + q.latLon * u + 2.0 * (q.lonLon * v)
  }

  /** The residuals at this point are those of three quadratics. */
  predicate QuadraticAt(l: Landscape, q: seq<Quadratic>, u: real, v: real)
    requires |q| == NAV_TRILAT_ANCHOR_COUNT
  {
    && l.at(u, v).Some?
    && forall i :: 0 <= i < NAV_TRILAT_ANCHOR_COUNT ==> l.at(u, v).value.residuals[i] == ValueAt(q[i], u, v)
  }

  /** A central difference of a quadratic is its derivative. */
  lemma CentralDifference(q: Quadratic, u: real, v: real, h: real)
    requires h != 0.0
    ensures (ValueAt(q, u + h, v) - ValueAt(q, u - h, v)) / (2.0 * h) == LatDerivative(q, u, v)
    ensures (ValueAt(q, u, v + h) - ValueAt(q, u, v - h)) / (2.0 * h) == LonDerivative(q, u, v)
  {
    LatDifference(q, u, v, h);
    LonDifference(q, u, v, h);
    QuotientIs(ValueAt(q, u + h, v) - ValueAt(q, u - h, v), 2.0 * h, LatDerivative(q, u, v));
    QuotientIs(ValueAt(q, u, v + h) - ValueAt(q, u, v - h), 2.0 * h, LonDerivative(q, u, v));
  }

  lemma LatDifference(q: Quadratic, u: real, v: real, h: real)
    ensures ValueAt(q, u + h, v) - ValueAt(q, u - h, v) == 2.0 * h * LatDerivative(q, u, v)
  {
    assert (u + h) * (u + h) - (u - h) * (u - h) == 4.0 * (h * u);
    assert q.latLat * ((u + h) * (u + h)) - q.latLat * ((u - h) * (u - h)) == q.latLat * (4.0 * (h * u));
    assert q.lat * (u + h) - q.lat * (u - h) == q.lat * (2.0 * h);
    assert q.latLon * ((u + h) * v) - q.latLon * ((u - h) * v) == q.latLon * (2.0 * (h * v));
  }

  lemma LonDifference(q: Quadratic, u: real, v: real, h: real)
    ensures ValueAt(q, u, v + h) - ValueAt(q, u, v - h) == 2.0 * h * LonDerivative(q, u, v)
  {
    assert (v + h) * (v + h) - (v - h) * (v - h) == 4.0 * (h * v);
    assert q.lonLon * ((v + h) * (v + h)) - q.lonLon * ((v - h) * (v - h)) == q.lonLon * (4.0 * (h * v));
    assert q.lon * (v + h) - q.lon * (v - h) == q.lon * (2.0 * h);
    assert q.latLon * (u * (v + h)) - q.latLon * (u * (v - h)) == q.latLon * (2.0 * (h * u));
  }

  lemma QuotientIs(n: real, d: real, r: real)
    requires d != 0.0 && n == d * r
    ensures n / d == r
  {
  }

  /** Where the residuals around a point are quadratic, the solver's slopes are exactly their derivatives there. */
  lemma SlopesAreDerivatives(l: Landscape, q: seq<Quadratic>, x: real, y: real)
    requires |q| == NAV_TRILAT_ANCHOR_COUNT
    requires QuadraticAt(l, q, x + FINITE_DIFF_RAD, y) && QuadraticAt(l, q, x - FINITE_DIFF_RAD, y)
    requires QuadraticAt(l, q, x, y + FINITE_DIFF_RAD) && QuadraticAt(l, q, x, y - FINITE_DIFF_RAD)
    ensures var j := JacobianAt(l, x, y);
      && j.Some?
      && forall i :: 0 <= i < NAV_TRILAT_ANCHOR_COUNT ==>
           j.value.lat[i] == LatDerivative(q[i], x, y) && j.value.lon[i] == LonDerivative(q[i], x, y)
  {
    forall i | 0 <= i < NAV_TRILAT_ANCHOR_COUNT
      ensures JacobianAt(l, x, y).value.lat[i] == LatDerivative(q[i], x, y)
      ensures JacobianAt(l, x, y).value.lon[i] == LonDerivative(q[i], x, y)
    {
      CentralDifference(q[i], x, y, FINITE_DIFF_RAD);
    }
  }

  // ---- descent ----------------------------------------------------------

  /** The residuals are everywhere those of three planes. */
  ghost predicate Planar(l: Landscape, base: Triple, a: Triple, b: Triple) {
    forall u: real, v: real {:trigger l.at(u, v)} ::
      && l.at(u, v).Some?
      && forall i :: 0 <= i < NAV_TRILAT_ANCHOR_COUNT ==> l.at(u, v).value.residuals[i] == base[i] + a[i] * u + b[i] * v
  }

  lemma PlanarSlopes(l: Landscape, base: Triple, a: Triple, b: Triple, x: real, y: real)
    requires Planar(l, base, a, b)
    ensures JacobianAt(l, x, y) == Some(Jacobian(a, b))
  {
    var q := seq(NAV_TRILAT_ANCHOR_COUNT, i requires 0 <= i < NAV_TRILAT_ANCHOR_COUNT =>
      Quadratic(base[i], a[i], b[i], 0.0, 0.0, 0.0));
    PlaneIsQuadratic(l, base, a, b, q, x + FINITE_DIFF_RAD, y);
    PlaneIsQuadratic(l, base, a, b, q, x - FINITE_DIFF_RAD, y);
    PlaneIsQuadratic(l, base, a, b, q, x, y + FINITE_DIFF_RAD);
    PlaneIsQuadratic(l, base, a, b, q, x, y - FINITE_DIFF_RAD);
    SlopesAreDerivatives(l, q, x, y);
    var j := JacobianAt(l, x, y).value;
    assert j.lat == a && j.lon == b;
  }

  lemma PlaneIsQuadratic(l: Landscape, base: Triple, a: Triple, b: Triple, q: seq<Quadratic>, u: real, v: real)
    requires Planar(l, base, a, b) && |q| == NAV_TRILAT_ANCHOR_COUNT
    requires forall i :: 0 <= i < NAV_TRILAT_ANCHOR_COUNT ==> q[i] == Quadratic(base[i], a[i], b[i], 0.0, 0.0, 0.0)
    ensures QuadraticAt(l, q, u, v)
  {
    var fit := l.at(u, v);
  }

  /** The residuals a step away, on planes. */
  function Moved(r: Triple, a: Triple, b: Triple, x: real, y: real): Triple {
    seq(NAV_TRILAT_ANCHOR_COUNT, i requires 0 <= i < NAV_TRILAT_ANCHOR_COUNT => r[i] + a[i] * x + b[i] * y)
  }

  /** A linear form. */
  function Line(p: real, q: real, x: real, y: real): real {
    p * x + q * y
  }

  /** The quadratic form of a symmetric matrix. */
  function Form(p: real, c: real, q: real, x: real, y: real): real {
    x * (p * x + c * y) + y * (c * x + q * y)
  }

  /** How a sum of squares changes along a step. */
  lemma {:induction false} MovedSum(
    m: seq<real>, r: seq<real>, a: seq<real>, b: seq<real>, x: real, y: real, n: nat)
    requires n <= |m| && n <= |r| && n <= |a| && n <= |b|
    requires forall i :: 0 <= i < n ==> m[i] == r[i] + a[i] * x + b[i] * y
    ensures Dot(m, m, n) == Dot(r, r, n) + 2.0 * Line(Dot(a, r, n), Dot(b, r, n), x, y)
                            + Form(Dot(a, a, n), Dot(a, b, n), Dot(b, b, n), x, y)
  {
    if n > 0 {
      var k := n - 1;
      MovedSum(m, r, a, b, x, y, k);
      var m1, r1, ar, br, aa, ab, bb := MovedSquare(m[k], r[k], a[k], b[k], x, y);
      LineAdds(Dot(a, r, n), Dot(b, r, n), Dot(a, r, k), Dot(b, r, k), ar, br, x, y);
      FormAdds(Dot(a, a, n), Dot(a, b, n), Dot(b, b, n), Dot(a, a, k), Dot(a, b, k), Dot(b, b, k), aa, ab, bb, x, y);
    }
  }

  /** One square, term by term. */
  lemma MovedSquare(m: real, r: real, a: real, b: real, x: real, y: real)
    returns (m1: real, r1: real, ar: real, br: real, aa: real, ab: real, bb: real)
    requires m == r + a * x + b * y
    ensures m1 == m * m && r1 == r * r && ar == a * r && br == b * r && aa == a * a && ab == a * b && bb == b * b
    ensures m1 == r1 + 2.0 * Line(ar, br, x, y) + Form(aa, ab, bb, x, y)
  {
    m1, r1, ar, br, aa, ab, bb := m * m, r * r, a * r, b * r, a * a, a * b, b * b;
    assert m1 == r * r + 2.0 * Line(a * r, b * r, x, y) + Form(a * a, a * b, b * b, x, y);
  }

  lemma LineAdds(p: real, q: real, p0: real, q0: real, p1: real, q1: real, x: real, y: real)
    requires p == p0 + p1 && q == q0 + q1
    ensures Line(p, q, x, y) == Line(p0, q0, x, y) + Line(p1, q1, x, y)
  {
  }

  lemma FormAdds(
    p: real, c: real, q: real, p0: real, c0: real, q0: real, p1: real, c1: real, q1: real, x: real, y: real)
    requires p == p0 + p1 && c == c0 + c1 && q == q0 + q1
    ensures Form(p, c, q, x, y) == Form(p0, c0, q0, x, y) + Form(p1, c1, q1, x, y)
  {
    assert p * x == p0 * x + p1 * x && c * y == c0 * y + c1 * y;
    assert c * x == c0 * x + c1 * x && q * y == q0 * y + q1 * y;
  }

  lemma FormIsSquare(a: real, b: real, x: real, y: real) returns (aa: real, ab: real, bb: real)
    ensures aa == a * a && ab == a * b && bb == b * b && Form(aa, ab, bb, x, y) >= 0.0
  {
    aa, ab, bb := a * a, a * b, b * b;
    assert Form(a * a, a * b, b * b, x, y) == Square(a * x + b * y);
  }

  lemma {:induction false} FormNonNegative(a: seq<real>, b: seq<real>, x: real, y: real, n: nat)
    requires n <= |a| && n <= |b|
    ensures Form(Dot(a, a, n), Dot(a, b, n), Dot(b, b, n), x, y) >= 0.0
  {
    if n > 0 {
      var k := n - 1;
      FormNonNegative(a, b, x, y, k);
      var aa, ab, bb := FormIsSquare(a[k], b[k], x, y);
      FormAdds(Dot(a, a, n), Dot(a, b, n), Dot(b, b, n), Dot(a, a, k), Dot(a, b, k), Dot(b, b, k), aa, ab, bb, x, y);
    }
  }

  /** Scaling a step scales the quadratic change twice. */
  lemma ScaledForm(p: real, c: real, q: real, x: real, y: real, k: real) returns (scaled: real, whole: real)
    ensures scaled == Form(p, c, q, x * k, y * k) && whole == Form(p, c, q, x, y)
    ensures scaled == whole * k * k
  {
    scaled, whole := Form(p, c, q, x * k, y * k), Form(p, c, q, x, y);
    assert p * (x * k) + c * (y * k) == (p * x + c * y) * k && c * (x * k) + q * (y * k) == (c * x + q * y) * k;
    assert (x * k) * ((p * x + c * y) * k) == x * (p * x + c * y) * k * k;
    assert (y * k) * ((c * x + q * y) * k) == y * (c * x + q * y) * k * k;
  }

  /** What the normal equations say of the step's product with the descent direction. */
  lemma StepProduct(lambda: real, p: real, c: real, q: real, x: real, y: real, down0: real, down1: real)
    requires (lambda + p) * x + c * y == down0 && c * x + (lambda + q) * y == down1
    ensures Line(down0, down1, x, y) == lambda * (Square(x) + Square(y)) + Form(p, c, q, x, y)
  {
    assert (lambda + p) * x == lambda * x + p * x && (lambda + q) * y == lambda * y + q * y;
    assert down0 * x == lambda * (x * x) + (p * x + c * y) * x;
    assert down1 * y == lambda * (y * y) + (c * x + q * y) * y;
  }

  lemma ScaledLine(ar: real, br: real, x: real, y: real, k: real) returns (scaled: real, whole: real)
    ensures scaled == Line(ar, br, x * k, y * k) && whole == Line(-ar, -br, x, y)
    ensures scaled == -(whole * k)
  {
    scaled, whole := Line(ar, br, x * k, y * k), Line(-ar, -br, x, y);
    assert ar * (x * k) == (ar * x) * k && br * (y * k) == (br * y) * k;
    assert whole * k == (-ar * x) * k + (-br * y) * k;
  }

  lemma GainSign(lambda: real, form: real, squares: real, k: real)
    requires lambda > 0.0 && squares > 0.0 && form >= 0.0 && 0.0 < k <= 1.0
    ensures form * k * k - 2.0 * ((lambda * squares + form) * k) < 0.0
  {
    assert lambda * squares > 0.0;
    assert (lambda * squares) * k > 0.0;
    assert form * k * k <= form * k by {
      assert form * k >= 0.0;
      assert (form * k) * (1.0 - k) >= 0.0;
    }
    assert (lambda * squares + form) * k == (lambda * squares) * k + form * k;
  }

  /** A part of the step, from nothing up to all of it, lowers the sum of squares. */
  lemma PartialStepGains(
    lambda: real, form: real, squares: real, product: real, k: real, scaledForm: real, scaledLine: real)
    requires lambda > 0.0 && squares > 0.0 && form >= 0.0 && 0.0 < k <= 1.0
    requires product == lambda * squares + form && scaledForm == form * k * k && scaledLine == -(product * k)
    ensures 2.0 * scaledLine + scaledForm < 0.0
  {
    GainSign(lambda, form, squares, k);
    assert product * k == (lambda * squares + form) * k;
  }

  /** How much of a step the length limit leaves. */
  function ScaleOf(norm: real): real {
    if norm > MAX_STEP_RAD then MAX_STEP_RAD / norm else 1.0
  }

  lemma ScaleBounds(norm: real)
    ensures 0.0 < ScaleOf(norm) <= 1.0
  {
    if norm > MAX_STEP_RAD {
      RatioBounds(MAX_STEP_RAD, norm);
    }
  }

  lemma LimitScales(norm: real, step: (real, real))
    ensures Limited(norm, step).0 == step.0 * ScaleOf(norm) && Limited(norm, step).1 == step.1 * ScaleOf(norm)
  {
  }

  /** A step that solves the damped equations, and the gain it promises. */
  predicate Promising(lambda: real, ar: real, br: real, form: real, x: real, y: real) {
    form >= 0.0 && Square(x) + Square(y) > 0.0 && Line(-ar, -br, x, y) == lambda * (Square(x) + Square(y)) + form
  }

  lemma SolutionPromises(lambda: real, p: real, c: real, q: real, ar: real, br: real, x: real, y: real)
    requires lambda > 0.0 && Form(p, c, q, x, y) >= 0.0 && (ar != 0.0 || br != 0.0)
    requires (lambda + p) * x + c * y == -ar && c * x + (lambda + q) * y == -br
    ensures Promising(lambda, ar, br, Form(p, c, q, x, y), x, y)
  {
    StepProduct(lambda, p, c, q, x, y, -ar, -br);
    if x == 0.0 && y == 0.0 {
      assert false;
    }
  }

  lemma RawStepIs(r: Triple, a: Triple, b: Triple, lambda: real, n: nat)
    requires n == NAV_TRILAT_ANCHOR_COUNT
    ensures RawStep(Jacobian(a, b), r, lambda)
         == Solve2x2(lambda + Dot(a, a, n), Dot(a, b, n), Dot(a, b, n), lambda + Dot(b, b, n), -Dot(a, r, n), -Dot(b, r, n))
  {
  }

  lemma DescentParts(r: Triple, a: Triple, b: Triple, n: nat)
    requires n == NAV_TRILAT_ANCHOR_COUNT && Descent(Jacobian(a, b), r) != (0.0, 0.0)
    ensures Dot(a, r, n) != 0.0 || Dot(b, r, n) != 0.0
  {
  }

  lemma SolutionOf(a00: real, a01: real, a10: real, a11: real, b0: real, b1: real) returns (x: real, y: real)
    requires Solve2x2(a00, a01, a10, a11, b0, b1).Some?
    ensures Solve2x2(a00, a01, a10, a11, b0, b1) == Some((x, y))
    ensures a00 * x + a01 * y == b0 && a10 * x + a11 * y == b1
  {
    var r := Solve2x2(a00, a01, a10, a11, b0, b1);
    x, y := r.value.0, r.value.1;
    Solve2x2Solves(a00, a01, a10, a11, b0, b1);
  }

  /** The quadratic form of these columns is nowhere negative. */
  ghost predicate Semidefinite(p: real, c: real, q: real) {
    forall x: real, y: real :: Form(p, c, q, x, y) >= 0.0
  }

  lemma ColumnsSemidefinite(a: seq<real>, b: seq<real>, n: nat)
    requires n <= |a| && n <= |b|
    ensures Semidefinite(Dot(a, a, n), Dot(a, b, n), Dot(b, b, n))
  {
    forall x: real, y: real
      ensures Form(Dot(a, a, n), Dot(a, b, n), Dot(b, b, n), x, y) >= 0.0
    {
      FormNonNegative(a, b, x, y, n);
    }
  }

  lemma SolvedPromises(lambda: real, p: real, c: real, q: real, ar: real, br: real) returns (x: real, y: real)
    requires lambda > 0.0 && Semidefinite(p, c, q) && (ar != 0.0 || br != 0.0)
    requires Solve2x2(lambda + p, c, c, lambda + q, -ar, -br).Some?
    ensures Solve2x2(lambda + p, c, c, lambda + q, -ar, -br) == Some((x, y))
    ensures Promising(lambda, ar, br, Form(p, c, q, x, y), x, y)
  {
    x, y := SolutionOf(lambda + p, c, c, lambda + q, -ar, -br);
    SolutionPromises(lambda, p, c, q, ar, br, x, y);
  }

  /** The raw step is promising wherever there is a direction to descend in. */
  lemma RawStepPromises(r: Triple, a: Triple, b: Triple, lambda: real, n: nat) returns (x: real, y: real)
    requires lambda > 0.0 && n == NAV_TRILAT_ANCHOR_COUNT && RawStep(Jacobian(a, b), r, lambda).Some?
    requires Descent(Jacobian(a, b), r) != (0.0, 0.0)
    ensures RawStep(Jacobian(a, b), r, lambda) == Some((x, y))
    ensures Promising(lambda, Dot(a, r, n), Dot(b, r, n), Form(Dot(a, a, n), Dot(a, b, n), Dot(b, b, n), x, y), x, y)
  {
    RawStepIs(r, a, b, lambda, n);
    DescentParts(r, a, b, n);
    ColumnsSemidefinite(a, b, n);
    x, y := SolvedPromises(lambda, Dot(a, a, n), Dot(a, b, n), Dot(b, b, n), Dot(a, r, n), Dot(b, r, n));
  }

  lemma PromiseGains(lambda: real, p: real, c: real, q: real, ar: real, br: real, x: real, y: real, k: real)
    returns (scaledLine: real, scaledForm: real)
    requires lambda > 0.0 && 0.0 < k <= 1.0 && Promising(lambda, ar, br, Form(p, c, q, x, y), x, y)
    ensures scaledLine == Line(ar, br, x * k, y * k) && scaledForm == Form(p, c, q, x * k, y * k)
    ensures 2.0 * scaledLine + scaledForm < 0.0
  {
    var form, line;
    scaledForm, form := ScaledForm(p, c, q, x, y, k);
    scaledLine, line := ScaledLine(ar, br, x, y, k);
    PartialStepGains(lambda, form, Square(x) + Square(y), line, k, scaledForm, scaledLine);
  }

  /** Part of a promising step lowers the sum of squared residuals. */
  lemma PromiseKept(
    m: seq<real>, r: seq<real>, a: seq<real>, b: seq<real>, lambda: real, x: real, y: real, k: real, n: nat)
    requires |m| == |r| == |a| == |b| == n && lambda > 0.0 && 0.0 < k <= 1.0
    requires Promising(lambda, Dot(a, r, n), Dot(b, r, n), Form(Dot(a, a, n), Dot(a, b, n), Dot(b, b, n), x, y), x, y)
    requires forall i :: 0 <= i < n ==> m[i] == r[i] + a[i] * (x * k) + b[i] * (y * k)
    ensures Dot(m, m, n) < Dot(r, r, n)
  {
    var line, form := PromiseGains(lambda, Dot(a, a, n), Dot(a, b, n), Dot(b, b, n), Dot(a, r, n), Dot(b, r, n), x, y, k);
    MovedSum(m, r, a, b, x * k, y * k, n);
  }

  /** On planes, the step a pass tries strictly lowers the sum of squared residuals, limited or not. */
  lemma StepGains(r: Triple, a: Triple, b: Triple, lambda: real, norm: real, n: nat)
    requires lambda > 0.0 && n == NAV_TRILAT_ANCHOR_COUNT && RawStep(Jacobian(a, b), r, lambda).Some?
    requires Descent(Jacobian(a, b), r) != (0.0, 0.0)
    ensures var step := Limited(norm, RawStep(Jacobian(a, b), r, lambda).value);
      var m := Moved(r, a, b, step.0, step.1);
      Dot(m, m, n) < Dot(r, r, n)
  {
    var x, y := RawStepPromises(r, a, b, lambda, n);
    var step := Limited(norm, (x, y));
    LimitScales(norm, (x, y));
    ScaleBounds(norm);
    PromiseKept(Moved(r, a, b, step.0, step.1), r, a, b, lambda, x, y, ScaleOf(norm), n);
  }

  // ---- passes -----------------------------------------------------------

  /** The sum of squared residuals at a point. */
  function SquaresAt(l: Landscape, u: real, v: real, n: nat): real
    requires n <= NAV_TRILAT_ANCHOR_COUNT && l.at(u, v).Some?
  {
    Dot(l.at(u, v).value.residuals, l.at(u, v).value.residuals, n)
  }

  lemma PlanarMove(l: Landscape, base: Triple, a: Triple, b: Triple, u: real, v: real, x: real, y: real)
    requires Planar(l, base, a, b)
    ensures l.at(u, v).Some? && l.at(u + x, v + y).Some?
    ensures l.at(u + x, v + y).value.residuals == Moved(l.at(u, v).value.residuals, a, b, x, y)
  {
    var r, m := l.at(u, v).value.residuals, l.at(u + x, v + y).value.residuals;
    forall i | 0 <= i < NAV_TRILAT_ANCHOR_COUNT
      ensures m[i] == Moved(r, a, b, x, y)[i]
    {
      assert m[i] == base[i] + a[i] * (u + x) + b[i] * (v + y);
      assert a[i] * (u + x) == a[i] * u + a[i] * x && b[i] * (v + y) == b[i] * v + b[i] * y;
    }
  }

  /** Where the residuals are planar, the candidate a pass tries fits strictly better, unless there is nowhere to
      descend to. */
  lemma CandidateImproves(l: Landscape, base: Triple, a: Triple, b: Triple, s: Search, n: nat)
    requires Planar(l, base, a, b) && l.at(s.latRad, s.lonRad) == Some(s.fit) && s.lambda > 0.0
    requires n == NAV_TRILAT_ANCHOR_COUNT && RawStep(Jacobian(a, b), s.fit.residuals, s.lambda).Some?
    requires Descent(Jacobian(a, b), s.fit.residuals) != (0.0, 0.0)
    ensures JacobianAt(l, s.latRad, s.lonRad) == Some(Jacobian(a, b))
    ensures var step := Shortened(l, RawStep(Jacobian(a, b), s.fit.residuals, s.lambda).value);
      && l.at(s.latRad + step.0, s.lonRad + step.1).Some?
      && SquaresAt(l, s.latRad + step.0, s.lonRad + step.1, n) < SquaresAt(l, s.latRad, s.lonRad, n)
  {
    var raw := RawStep(Jacobian(a, b), s.fit.residuals, s.lambda).value;
    var step := Shortened(l, raw);
    PlanarSlopes(l, base, a, b, s.latRad, s.lonRad);
    StepGains(s.fit.residuals, a, b, s.lambda, l.hypot(raw.0, raw.1), n);
    PlanarMove(l, base, a, b, s.latRad, s.lonRad, step.0, step.1);
  }

  /** A fit with a smaller sum of squares has no larger root mean square. */
  ghost predicate RmsOrders(l: Landscape, n: nat)
    requires n <= NAV_TRILAT_ANCHOR_COUNT
  {
    forall u: real, v: real, u': real, v': real {:trigger l.at(u, v), l.at(u', v')} ::
      l.at(u, v).Some? && l.at(u', v').Some? && SquaresAt(l, u, v, n) <= SquaresAt(l, u', v', n) ==>
        l.at(u, v).value.rms <= l.at(u', v').value.rms
  }

  lemma NoStepWithoutDescent(r: Triple, a: Triple, b: Triple, lambda: real, norm: real)
    requires lambda > 0.0 && RawStep(Jacobian(a, b), r, lambda).Some?
    requires Descent(Jacobian(a, b), r) == (0.0, 0.0)
    ensures Limited(norm, RawStep(Jacobian(a, b), r, lambda).value) == (0.0, 0.0)
  {
    StepDescends(Jacobian(a, b), r, lambda);
    LimitScales(norm, RawStep(Jacobian(a, b), r, lambda).value);
  }

  /** So every pass on planes takes its candidate. */
  lemma PlanarPassTakes(l: Landscape, base: Triple, a: Triple, b: Triple, s: Search, n: nat)
    requires Planar(l, base, a, b) && l.at(s.latRad, s.lonRad) == Some(s.fit) && s.lambda > 0.0
    requires n == NAV_TRILAT_ANCHOR_COUNT && RmsOrders(l, n)
    ensures var pass := OnePass(l, s);
      if RawStep(Jacobian(a, b), s.fit.residuals, s.lambda).None? then pass == Stop(PoorGeometry)
      else
        && !pass.Stop? && pass.search.accepted && l.at(pass.search.latRad, pass.search.lonRad) == Some(pass.search.fit)
        && SquaresAt(l, pass.search.latRad, pass.search.lonRad, n) <= SquaresAt(l, s.latRad, s.lonRad, n)
        && (Descent(Jacobian(a, b), s.fit.residuals) != (0.0, 0.0) ==>
              SquaresAt(l, pass.search.latRad, pass.search.lonRad, n) < SquaresAt(l, s.latRad, s.lonRad, n))
  {
    PlanarSlopes(l, base, a, b, s.latRad, s.lonRad);
    if RawStep(Jacobian(a, b), s.fit.residuals, s.lambda).Some? {
      PlanarStepTaken(l, base, a, b, s, n);
    }
  }

  lemma PlanarStepTaken(l: Landscape, base: Triple, a: Triple, b: Triple, s: Search, n: nat)
    requires Planar(l, base, a, b) && l.at(s.latRad, s.lonRad) == Some(s.fit) && s.lambda > 0.0
    requires n == NAV_TRILAT_ANCHOR_COUNT && RmsOrders(l, n)
    requires RawStep(Jacobian(a, b), s.fit.residuals, s.lambda).Some?
    ensures var pass := Candidate(l, s, Shortened(l, RawStep(Jacobian(a, b), s.fit.residuals, s.lambda).value));
      && !pass.Stop? && pass.search.accepted && l.at(pass.search.latRad, pass.search.lonRad) == Some(pass.search.fit)
      && SquaresAt(l, pass.search.latRad, pass.search.lonRad, n) <= SquaresAt(l, s.latRad, s.lonRad, n)
      && (Descent(Jacobian(a, b), s.fit.residuals) != (0.0, 0.0) ==>
            SquaresAt(l, pass.search.latRad, pass.search.lonRad, n) < SquaresAt(l, s.latRad, s.lonRad, n))
  {
    var j := Jacobian(a, b);
    var raw := RawStep(j, s.fit.residuals, s.lambda).value;
    var step := Shortened(l, raw);
    if Descent(j, s.fit.residuals) == (0.0, 0.0) {
      NoStepWithoutDescent(s.fit.residuals, a, b, s.lambda, l.hypot(raw.0, raw.1));
    } else {
      CandidateImproves(l, base, a, b, s, n);
    }
    CandidateTaken(l, s, step, l.at(s.latRad + step.0, s.lonRad + step.1).value);
  }

  /** Once a candidate was taken the loop cannot end without one. */
  lemma {:induction false} TakenStays(l: Landscape, s: Search, done: nat)
    requires done <= MAX_ITERATIONS && s.accepted
    ensures var e := Iterate(l, s, done); e.pass.Stop? || e.pass.search.accepted
    decreases MAX_ITERATIONS - done
  {
    if done < MAX_ITERATIONS && OnePass(l, s).Again? {
      TakenStays(l, OnePass(l, s).search, done + 1);
    }
  }

  /** Where the residuals are planar the solver never gives up without a solution: from any guess, its first pass takes
      its candidate. */
  lemma PlanarNeverGivesUp(
    l: Landscape, base: Triple, a: Triple, b: Triple, guess: (real, real), altM: real, condition: Option<real>, n: nat)
    requires Planar(l, base, a, b) && n == NAV_TRILAT_ANCHOR_COUNT && RmsOrders(l, n)
    ensures var status := SolveFrom(l, guess, altM, condition).0; status.TrilatOk? || status.PoorGeometry?
  {
    var u, v := guess.0 * DEG_TO_RAD, guess.1 * DEG_TO_RAD;
    assert l.at(u, v).Some?;
    var first := FirstSearch(l, guess).value;
    DampedStepExists(Jacobian(a, b), first.fit.residuals, INITIAL_LAMBDA);
    PlanarPassTakes(l, base, a, b, first, n);
    PlanarSteps(l, base, a, b, first, 0);
    if OnePass(l, first).Again? {
      TakenStays(l, OnePass(l, first).search, 1);
    }
  }

  /** On planes no pass leaves the map. */
  lemma {:induction false} PlanarSteps(l: Landscape, base: Triple, a: Triple, b: Triple, s: Search, done: nat)
    requires Planar(l, base, a, b) && done <= MAX_ITERATIONS
    ensures var e := Iterate(l, s, done); e.pass.Stop? ==> e.pass.status.PoorGeometry?
    decreases MAX_ITERATIONS - done
  {
    if done < MAX_ITERATIONS {
      PlanarSlopes(l, base, a, b, s.latRad, s.lonRad);
      if OnePass(l, s).Again? {
        PlanarSteps(l, base, a, b, OnePass(l, s).search, done + 1);
      }
    }
  }

  // ---- step length and damping ------------------------------------------

  predicate Scales(x: real, y: real, k: real, u: real, v: real) {
    k >= 0.0 && u == x * k && v == y * k
  }

  /** The length of a step scales with the step. */
  ghost predicate LengthScales(l: Landscape) {
    forall x: real, y: real, k: real, u: real, v: real {:trigger Scales(x, y, k, u, v)} ::
      Scales(x, y, k, u, v) ==> l.hypot(u, v) == l.hypot(x, y) * k
  }

  /** A step within the limit is tried as it is. */
  lemma ShortStepStays(l: Landscape, step: (real, real))
    requires l.hypot(step.0, step.1) <= MAX_STEP_RAD
    ensures Shortened(l, step) == step
  {
  }

  /** No step tried is longer than the limit. */
  lemma StepIsShort(l: Landscape, step: (real, real))
    requires LengthScales(l)
    ensures var tried := Shortened(l, step); l.hypot(tried.0, tried.1) <= MAX_STEP_RAD
  {
    var norm := l.hypot(step.0, step.1);
    var k := ScaleOf(norm);
    LimitScales(norm, step);
    ScaleBounds(norm);
    LimitedNorm(norm);
    assert Scales(step.0, step.1, k, Limited(norm, step).0, Limited(norm, step).1);
  }

  lemma LimitedNorm(norm: real)
    ensures norm * ScaleOf(norm) <= MAX_STEP_RAD
  {
    if norm > MAX_STEP_RAD {
      QuotientBack(MAX_STEP_RAD, norm);
    }
  }

  lemma QuotientBack(x: real, y: real)
    requires y != 0.0
    ensures y * (x / y) == x
  {
  }

  /** The damping rises tenfold, up to its cap, if the candidate fits worse, and tenfold without a cap if it is off the
      globe; it falls to a tenth, down to its floor, if the candidate is taken. */
  lemma DampingFollows(l: Landscape, s: Search, step: (real, real))
    requires s.lambda > 0.0 && Candidate(l, s, step).Again?
    ensures var fit, after := l.at(s.latRad + step.0, s.lonRad + step.1), Candidate(l, s, step).search.lambda;
      && (fit.None? ==> after == 10.0 * s.lambda)
      && (fit.Some? && fit.value.rms > s.fit.rms ==>
            after <= MAX_LAMBDA && (10.0 * s.lambda <= MAX_LAMBDA ==> after == 10.0 * s.lambda)
            && (10.0 * s.lambda > MAX_LAMBDA ==> after == MAX_LAMBDA))
      && (fit.Some? && fit.value.rms <= s.fit.rms ==>
            after >= MIN_LAMBDA && (s.lambda >= 10.0 * MIN_LAMBDA ==> 10.0 * after == s.lambda)
            && (s.lambda < 10.0 * MIN_LAMBDA ==> after == MIN_LAMBDA))
  {
  }

  /** A pass ends the search exactly if it takes a candidate a tiny step away or with a tiny residual. */
  lemma ConvergesExactly(l: Landscape, s: Search, step: (real, real))
    ensures Candidate(l, s, step).Converged? <==>
      var fit := l.at(s.latRad + step.0, s.lonRad + step.1);
      && fit.Some? && fit.value.rms <= s.fit.rms
      && (l.hypot(step.0, step.1) < 0.00000000000001 || fit.value.rms < 0.000001)
  {
  }
}
