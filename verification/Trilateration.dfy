/** The damped least-squares solver for three anchors and a known altitude, over the reals. The geodetic formulas are
    arbitrary functions; the control flow, the linear algebra and the bookkeeping are the solver's own. */
module Trilateration {
  import opened Words
  import opened NavTypes
  import NavState

  type Anchor = NavState.TrilatAnchor

  const PI := 3.14159265358979323846264338327950288
  const DEG_TO_RAD := PI / 180.0
  const RAD_TO_DEG := 180.0 / PI
  const MAX_GEOMETRY_CONDITION := 100000000.0
  const MAX_ITERATIONS := 30
  const FINITE_DIFF_RAD := 0.00000001
  const CONVERGENCE_STEP_RAD := 0.00000000000001
  const CONVERGENCE_RMS_M := 0.000001
  const MIN_DETERMINANT := 0.000000000000000001
  const INITIAL_LAMBDA := 0.001
  const MIN_LAMBDA := 0.000000000001
  const MAX_LAMBDA := 1000000000000.0
  const MAX_STEP_RAD := 0.001

  /** The geodetic and transcendental routines: chord distance from an anchor to a point in degrees, square root,
      hypotenuse, the geometry condition (`None` when infinite) and the linearised initial guess in degrees. */
  datatype Geodesy = Geodesy(
    distance: (Anchor, real, real, real) -> real,
    root: real -> real,
    hypot: (real, real) -> real,
    condition: seq<Anchor> -> Option<real>,
    guess: (seq<Anchor>, real) -> (real, real))

  // ---- angles -----------------------------------------------------------

  /** The remainder of a truncating division, with the sign of the dividend. */
  function Fmod(x: real, m: real): real
    requires m > 0.0
  {
    if x >= 0.0 then x - (x / m).Floor as real * m else -(-x - (-x / m).Floor as real * m)
  }

  function NormalizeLon(lon: real): real {
    var r := Fmod(lon + 180.0, 360.0);
    (if r < 0.0 then r + 360.0 else r) - 180.0
  }

  function Turned(lon: real, turns: int): real {
    lon + 360.0 * turns as real
  }

  /** Normalising turns a longitude by whole turns into [-180, 180). */
  lemma NormalizedLon(lon: real)
    ensures -180.0 <= NormalizeLon(lon) < 180.0
    ensures exists turns :: NormalizeLon(lon) == Turned(lon, turns)
  {
    var x := lon + 180.0;
    var q := if x >= 0.0 then (x / 360.0).Floor else -(-x / 360.0).Floor;
    assert Fmod(x, 360.0) == x - q as real * 360.0;
    assert -360.0 < Fmod(x, 360.0) < 360.0;
    var turns := if Fmod(x, 360.0) < 0.0 then 1 - q else -q;
    assert NormalizeLon(lon) == Turned(lon, turns);
  }

  function AsDegrees(rad: real): real {
    rad * RAD_TO_DEG
  }

  predicate ValidLatLon(latDeg: real, lonDeg: real) {
    -90.0 <= latDeg <= 90.0 && -180.0 <= lonDeg <= 180.0
  }

  // ---- residuals --------------------------------------------------------

  function Max(x: real, y: real): real {
    if x < y then y else x
  }

  /** The sum of products of two columns over their first `n` entries. */
  function Dot(a: seq<real>, b: seq<real>, n: nat): real
    requires n <= |a| && n <= |b|
  {
    if n == 0 then 0.0 else Dot(a, b, n - 1) + a[n - 1] * b[n - 1]
  }

  function MaxAbs(a: seq<real>, n: nat): real
    requires n <= |a|
  {
    if n == 0 then 0.0 else Max(MaxAbs(a, n - 1), Abs(a[n - 1]))
  }

  lemma {:induction false} MaxAbsIsMax(a: seq<real>, n: nat)
    requires n <= |a|
    ensures forall i :: 0 <= i < n ==> Abs(a[i]) <= MaxAbs(a, n)
    ensures n > 0 ==> exists i :: 0 <= i < n && Abs(a[i]) == MaxAbs(a, n)
  {
    if n > 0 {
      MaxAbsIsMax(a, n - 1);
      if n > 1 && Abs(a[n - 1]) <= MaxAbs(a, n - 1) {
        var i :| 0 <= i < n - 1 && Abs(a[i]) == MaxAbs(a, n - 1);
        assert Abs(a[i]) == MaxAbs(a, n);
      } else {
        assert Abs(a[n - 1]) == MaxAbs(a, n);
      }
    }
  }

  /** Three numbers, one for each anchor. */
  type Triple = s: seq<real> | |s| == NAV_TRILAT_ANCHOR_COUNT witness [0.0, 0.0, 0.0]

  /** How well a point fits the measured distances. */
  datatype Fit = Fit(residuals: Triple, expected: Triple, rms: real, maxAbs: real)

  function Expected(g: Geodesy, anchors: seq<Anchor>, latDeg: real, lonDeg: real, altM: real): (e: seq<real>)
    ensures |e| == |anchors|
  {
    seq(|anchors|, i requires 0 <= i < |anchors| => g.distance(anchors[i], latDeg, lonDeg, altM))
  }

  function Residuals(anchors: seq<Anchor>, expected: seq<real>): (r: seq<real>)
    requires |expected| == |anchors|
    ensures |r| == |anchors|
  {
    seq(|anchors|, i requires 0 <= i < |anchors| => expected[i] - anchors[i].distanceM)
  }

  function FitAt(g: Geodesy, anchors: seq<Anchor>, latDeg: real, lonDeg: real, altM: real): Fit
    requires |anchors| == NAV_TRILAT_ANCHOR_COUNT
  {
    var expected := Expected(g, anchors, latDeg, lonDeg, altM);
    var r := Residuals(anchors, expected);
    Fit(r, expected, g.root(Dot(r, r, |r|) / NAV_TRILAT_ANCHOR_COUNT as real), MaxAbs(r, |r|))
  }

  /** The fit at a point in radians, if its latitude is on the globe. */
  function FitAtRad(g: Geodesy, anchors: seq<Anchor>, latRad: real, lonRad: real, altM: real): Option<Fit>
    requires |anchors| == NAV_TRILAT_ANCHOR_COUNT
  {
    var latDeg, lonDeg := AsDegrees(latRad), NormalizeLon(AsDegrees(lonRad));
    if ValidLatLon(latDeg, lonDeg) then Some(FitAt(g, anchors, latDeg, lonDeg, altM)) else None
  }

  /** What the search sees of its problem: the fit at every point in radians, and the length of a step. */
  datatype Landscape = Landscape(at: (real, real) -> Option<Fit>, hypot: (real, real) -> real)

  function LandscapeOf(g: Geodesy, anchors: seq<Anchor>, altM: real): Landscape
    requires |anchors| == NAV_TRILAT_ANCHOR_COUNT
  {
    Landscape((latRad, lonRad) => FitAtRad(g, anchors, latRad, lonRad, altM), g.hypot)
  }

  // ---- the linear step --------------------------------------------------

  function Solve2x2(a00: real, a01: real, a10: real, a11: real, b0: real, b1: real): Option<(real, real)> {
    var det := a00 * a11 - a01 * a10;
    if Abs(det) < MIN_DETERMINANT then None
    else Some(((b0 * a11 - a01 * b1) / det, (a00 * b1 - b0 * a10) / det))
  }

  lemma DivideBack(n: real, d: real, k: real)
    requires d != 0.0
    ensures k * (n / d) == (k * n) / d
  {
  }

  lemma SumOverDet(p: real, q: real, det: real, b: real)
    requires det != 0.0 && p + q == b * det
    ensures p / det + q / det == b
  {
    assert p / det + q / det == (p + q) / det;
  }

  /** The pair returned solves the system. */
  lemma Solve2x2Solves(a00: real, a01: real, a10: real, a11: real, b0: real, b1: real)
    ensures var r := Solve2x2(a00, a01, a10, a11, b0, b1);
      && (r.None? <==> Abs(a00 * a11 - a01 * a10) < MIN_DETERMINANT)
      && (r.Some? ==> a00 * r.value.0 + a01 * r.value.1 == b0 && a10 * r.value.0 + a11 * r.value.1 == b1)
  {
    var det := a00 * a11 - a01 * a10;
    if Abs(det) >= MIN_DETERMINANT {
      var n0, n1 := b0 * a11 - a01 * b1, a00 * b1 - b0 * a10;
      DivideBack(n0, det, a00);
      DivideBack(n1, det, a01);
      DivideBack(n0, det, a10);
      DivideBack(n1, det, a11);
      FirstRow(a00, a01, a10, a11, b0, b1);
      SecondRow(a00, a01, a10, a11, b0, b1);
      SumOverDet(a00 * n0, a01 * n1, det, b0);
      SumOverDet(a10 * n0, a11 * n1, det, b1);
    }
  }

  lemma FirstRow(a00: real, a01: real, a10: real, a11: real, b0: real, b1: real)
    ensures a00 * (b0 * a11 - a01 * b1) + a01 * (a00 * b1 - b0 * a10) == b0 * (a00 * a11 - a01 * a10)
  {
    assert a00 * (b0 * a11 - a01 * b1) == b0 * (a00 * a11) - a00 * a01 * b1;
    assert a01 * (a00 * b1 - b0 * a10) == a00 * a01 * b1 - b0 * (a01 * a10);
  }

  lemma SecondRow(a00: real, a01: real, a10: real, a11: real, b0: real, b1: real)
    ensures a10 * (b0 * a11 - a01 * b1) + a11 * (a00 * b1 - b0 * a10) == b1 * (a00 * a11 - a01 * a10)
  {
    assert a10 * (b0 * a11 - a01 * b1) == a10 * b0 * a11 - b1 * (a01 * a10);
    assert a11 * (a00 * b1 - b0 * a10) == b1 * (a00 * a11) - a10 * b0 * a11;
  }

  /** The derivative of the residuals along latitude and along longitude, by central differences. */
  datatype Jacobian = Jacobian(lat: Triple, lon: Triple)

  function Slope(plus: Triple, minus: Triple): Triple {
    seq(NAV_TRILAT_ANCHOR_COUNT, i requires 0 <= i < NAV_TRILAT_ANCHOR_COUNT =>
      (plus[i] - minus[i]) / (2.0 * FINITE_DIFF_RAD))
  }

  function JacobianAt(l: Landscape, latRad: real, lonRad: real): Option<Jacobian> {
    var north, south := l.at(latRad + FINITE_DIFF_RAD, lonRad), l.at(latRad - FINITE_DIFF_RAD, lonRad);
    var east, west := l.at(latRad, lonRad + FINITE_DIFF_RAD), l.at(latRad, lonRad - FINITE_DIFF_RAD);
    if north.None? || south.None? || east.None? || west.None? then None
    else
      Some(Jacobian(Slope(north.value.residuals, south.value.residuals),
                    Slope(east.value.residuals, west.value.residuals)))
  }

  /** Half the negative gradient of the squared residuals: the right-hand side of the normal equations. */
  function Descent(j: Jacobian, r: Triple): (real, real)
  {
    (-Dot(j.lat, r, NAV_TRILAT_ANCHOR_COUNT), -Dot(j.lon, r, NAV_TRILAT_ANCHOR_COUNT))
  }

  function RawStep(j: Jacobian, r: Triple, lambda: real): Option<(real, real)>
  {
    var n := NAV_TRILAT_ANCHOR_COUNT;
    var cross := Dot(j.lat, j.lon, n);
    var down := Descent(j, r);
    Solve2x2(lambda + Dot(j.lat, j.lat, n), cross, cross, lambda + Dot(j.lon, j.lon, n), down.0, down.1)
  }

  function Limited(norm: real, step: (real, real)): (real, real) {
    if norm > MAX_STEP_RAD then (step.0 * (MAX_STEP_RAD / norm), step.1 * (MAX_STEP_RAD / norm)) else step
  }

  function Shortened(l: Landscape, step: (real, real)): (real, real) {
    Limited(l.hypot(step.0, step.1), step)
  }

  lemma Dot3(a: seq<real>, b: seq<real>)
    requires |a| == |b| == 3
    ensures Dot(a, b, 3) == a[0] * b[0] + a[1] * b[1] + a[2] * b[2]
  {
    assert Dot(a, b, 1) == a[0] * b[0];
    assert Dot(a, b, 2) == Dot(a, b, 1) + a[1] * b[1];
  }

  lemma SquareNonNegative(x: real)
    ensures x * x >= 0.0
  {
  }

  function Times(x: real, y: real): (r: real)
    ensures (x > 0.0 && y > 0.0) || (x < 0.0 && y < 0.0) ==> r > 0.0
    ensures x == 0.0 || y == 0.0 ==> r == 0.0
  {
    x * y
  }

  function Square(x: real): (r: real)
    ensures r >= 0.0 && (x != 0.0 ==> r > 0.0)
  {
    Times(x, x)
  }

  /** Lagrange's identity in three dimensions. */
  lemma Lagrange(a0: real, a1: real, a2: real, b0: real, b1: real, b2: real)
    ensures Times(a0 * a0 + a1 * a1 + a2 * a2, b0 * b0 + b1 * b1 + b2 * b2)
         >= Times(a0 * b0 + a1 * b1 + a2 * b2, a0 * b0 + a1 * b1 + a2 * b2)
  {
    assert Times(a0 * a0 + a1 * a1 + a2 * a2, b0 * b0 + b1 * b1 + b2 * b2)
        == Times(a0 * b0 + a1 * b1 + a2 * b2, a0 * b0 + a1 * b1 + a2 * b2)
         + Square(a0 * b1 - a1 * b0) + Square(a0 * b2 - a2 * b0) + Square(a1 * b2 - a2 * b1);
  }

  lemma DampedProduct(lambda: real, p: real, q: real, c: real)
    requires lambda >= 0.0 && p >= 0.0 && q >= 0.0 && Times(p, q) >= Times(c, c)
    ensures (lambda + p) * (lambda + q) - c * c >= lambda * lambda
  {
    assert (lambda + p) * (lambda + q) == lambda * lambda + lambda * (p + q) + p * q;
    assert lambda * (p + q) >= 0.0;
  }

  lemma ColumnProducts(a: Triple, b: Triple)
    ensures Dot(a, a, 3) >= 0.0 && Dot(b, b, 3) >= 0.0
    ensures Times(Dot(a, a, 3), Dot(b, b, 3)) >= Times(Dot(a, b, 3), Dot(a, b, 3))
  {
    Dot3(a, a);
    Dot3(b, b);
    Dot3(a, b);
    SumOfSquares(a[0], a[1], a[2]);
    SumOfSquares(b[0], b[1], b[2]);
    ProductsOf(a[0], a[1], a[2], b[0], b[1], b[2], Dot(a, a, 3), Dot(b, b, 3), Dot(a, b, 3));
  }

  lemma ProductsOf(
    a0: real, a1: real, a2: real, b0: real, b1: real, b2: real, p: real, q: real, c: real)
    requires p == a0 * a0 + a1 * a1 + a2 * a2 && q == b0 * b0 + b1 * b1 + b2 * b2
    requires c == a0 * b0 + a1 * b1 + a2 * b2
    ensures Times(p, q) >= Times(c, c)
  {
    Lagrange(a0, a1, a2, b0, b1, b2);
  }

  /** The damped normal matrix has determinant at least lambda squared. */
  lemma DampedDeterminant(j: Jacobian, lambda: real)
    requires lambda >= 0.0
    ensures var n := NAV_TRILAT_ANCHOR_COUNT;
      var p, q, c := Dot(j.lat, j.lat, n), Dot(j.lon, j.lon, n), Dot(j.lat, j.lon, n);
      (lambda + p) * (lambda + q) - c * c >= lambda * lambda
  {
    ColumnProducts(j.lat, j.lon);
    DampedProduct(lambda, Dot(j.lat, j.lat, 3), Dot(j.lon, j.lon, 3), Dot(j.lat, j.lon, 3));
  }

  lemma SumOfSquares(x: real, y: real, z: real)
    ensures x * x + y * y + z * z >= 0.0
  {
    SquareNonNegative(x);
    SquareNonNegative(y);
    SquareNonNegative(z);
  }

  lemma LargeSquare(lambda: real)
    requires lambda >= 0.000000001
    ensures lambda * lambda >= MIN_DETERMINANT
  {
    assert lambda * lambda >= 0.000000001 * 0.000000001;
  }

  lemma DampedSolves(lambda: real, p: real, q: real, c: real, b0: real, b1: real)
    requires lambda >= 0.000000001 && p >= 0.0 && q >= 0.0 && Times(p, q) >= Times(c, c)
    ensures Solve2x2(lambda + p, c, c, lambda + q, b0, b1).Some?
  {
    DampedProduct(lambda, p, q, c);
    LargeSquare(lambda);
  }

  /** With damping of at least 1e-9 the step exists. */
  lemma DampedStepExists(j: Jacobian, r: Triple, lambda: real)
    requires lambda >= 0.000000001
    ensures RawStep(j, r, lambda).Some?
  {
    ColumnProducts(j.lat, j.lon);
    DampedSolves(lambda, Dot(j.lat, j.lat, 3), Dot(j.lon, j.lon, 3), Dot(j.lat, j.lon, 3),
                 Descent(j, r).0, Descent(j, r).1);
  }

  /** The quadratic form of the damped normal matrix, as a sum of squares. */
  lemma DampedForm(lambda: real, a0: real, a1: real, a2: real, b0: real, b1: real, b2: real, x: real, y: real)
    ensures x * ((lambda + (a0 * a0 + a1 * a1 + a2 * a2)) * x + (a0 * b0 + a1 * b1 + a2 * b2) * y)
          + y * ((a0 * b0 + a1 * b1 + a2 * b2) * x + (lambda + (b0 * b0 + b1 * b1 + b2 * b2)) * y)
         == Times(lambda, Square(x) + Square(y))
          + Square(a0 * x + b0 * y) + Square(a1 * x + b1 * y) + Square(a2 * x + b2 * y)
  {
  }

  /** A step that is not zero goes strictly downhill: its product with the descent direction is positive. The step is
      zero only where there is no direction to descend in. */
  lemma StepDescends(j: Jacobian, r: Triple, lambda: real)
    requires lambda > 0.0 && RawStep(j, r, lambda).Some?
    ensures var (x, y) := RawStep(j, r, lambda).value;
      var (down0, down1) := Descent(j, r);
      if x != 0.0 || y != 0.0 then x * down0 + y * down1 > 0.0 else down0 == 0.0 && down1 == 0.0
  {
    var (x, y) := RawStep(j, r, lambda).value;
    var (down0, down1) := Descent(j, r);
    var a, b := j.lat, j.lon;
    var p, q, c := Dot(a, a, 3), Dot(b, b, 3), Dot(a, b, 3);
    Solve2x2Solves(lambda + p, c, c, lambda + q, down0, down1);
    if x != 0.0 || y != 0.0 {
      Dot3(a, a);
      Dot3(b, b);
      Dot3(a, b);
      FormIsPositive(lambda, a, b, x, y, p, q, c);
      assert down0 == (lambda + p) * x + c * y && down1 == c * x + (lambda + q) * y;
    }
  }

  lemma FormIsPositive(
    lambda: real, a: seq<real>, b: seq<real>, x: real, y: real, p: real, q: real, c: real)
    requires |a| == |b| == 3 && lambda > 0.0 && (x != 0.0 || y != 0.0)
    requires p == a[0] * a[0] + a[1] * a[1] + a[2] * a[2]
    requires q == b[0] * b[0] + b[1] * b[1] + b[2] * b[2]
    requires c == a[0] * b[0] + a[1] * b[1] + a[2] * b[2]
    ensures x * ((lambda + p) * x + c * y) + y * (c * x + (lambda + q) * y) > 0.0
  {
    DampedForm(lambda, a[0], a[1], a[2], b[0], b[1], b[2], x, y);
  }

  /** Limiting the step's length keeps it downhill. */
  lemma LimitedStepDescends(norm: real, step: (real, real), down0: real, down1: real)
    requires step.0 * down0 + step.1 * down1 > 0.0
    ensures var s := Limited(norm, step); s.0 * down0 + s.1 * down1 > 0.0
  {
    if norm > MAX_STEP_RAD {
      var k := MAX_STEP_RAD / norm;
      assert k > 0.0;
      ScaledProduct(step.0, step.1, down0, down1, k);
    }
  }

  lemma ScaledProduct(x: real, y: real, u: real, v: real, k: real)
    requires x * u + y * v > 0.0 && k > 0.0
    ensures (x * k) * u + (y * k) * v > 0.0
  {
    assert (x * k) * u + (y * k) * v == k * (x * u + y * v);
  }

  /** No step a pass tries goes uphill, and every one goes strictly downhill unless the descent direction is zero. */
  lemma TriedStepDescends(l: Landscape, j: Jacobian, r: Triple, lambda: real)
    requires lambda > 0.0 && RawStep(j, r, lambda).Some?
    ensures var step := Shortened(l, RawStep(j, r, lambda).value);
      var downhill := step.0 * Descent(j, r).0 + step.1 * Descent(j, r).1;
      downhill >= 0.0 && (downhill == 0.0 <==> Descent(j, r) == (0.0, 0.0))
  {
    var raw, down := RawStep(j, r, lambda).value, Descent(j, r);
    StepDescends(j, r, lambda);
    if raw != (0.0, 0.0) {
      LimitedStepDescends(l.hypot(raw.0, raw.1), raw, down.0, down.1);
    }
  }

  // ---- the iteration ----------------------------------------------------

  datatype TrilatStatus = TrilatOk | InvalidInput | PoorGeometry | NoConvergence

  /** Where the iteration stands: the best point so far with its fit, the damping, and whether any candidate was taken. */
  datatype Search = Search(latRad: real, lonRad: real, lambda: real, fit: Fit, accepted: bool)

  /** One pass of the loop: stop with an error, stop converged, or carry on. */
  datatype Pass = Stop(status: TrilatStatus) | Converged(search: Search) | Again(search: Search)

  /** Less damping after a candidate was taken, more after one was not. */
  function Relaxed(lambda: real): real {
    Max(lambda / 10.0, MIN_LAMBDA)
  }

  function Stiffened(lambda: real): real {
    if lambda * 10.0 < MAX_LAMBDA then lambda * 10.0 else MAX_LAMBDA
  }

  function Candidate(l: Landscape, s: Search, step: (real, real)): Pass {
    match l.at(s.latRad + step.0, s.lonRad + step.1)
    case None => Again(s.(lambda := s.lambda * 10.0))
    case Some(fit) =>
      if fit.rms <= s.fit.rms then
        var next := Search(s.latRad + step.0, s.lonRad + step.1, Relaxed(s.lambda), fit, true);
        if l.hypot(step.0, step.1) < CONVERGENCE_STEP_RAD || fit.rms < CONVERGENCE_RMS_M then Converged(next)
        else Again(next)
      else Again(s.(lambda := Stiffened(s.lambda)))
  }

  function OnePass(l: Landscape, s: Search): Pass {
    match JacobianAt(l, s.latRad, s.lonRad)
    case None => Stop(InvalidInput)
    case Some(j) =>
      match RawStep(j, s.fit.residuals, s.lambda)
      case None => Stop(PoorGeometry)
      case Some(step) => Candidate(l, s, Shortened(l, step))
  }

  /** How the loop ended, and after how many passes. */
  datatype Ending = Ending(passes: nat, pass: Pass)

  /** The loop from pass `done` on. */
  function Iterate(l: Landscape, s: Search, done: nat): Ending
    requires done <= MAX_ITERATIONS
    decreases MAX_ITERATIONS - done
  {
    if done == MAX_ITERATIONS then Ending(done, Again(s))
    else
      var pass := OnePass(l, s);
      if pass.Again? then Iterate(l, pass.search, done + 1) else Ending(done + 1, pass)
  }

  // ---- the solver -------------------------------------------------------

  datatype TrilatResult = TrilatResult(
    latDeg: real, lonDeg: real, altM: real, rms: real, maxAbs: real,
    residuals: Triple, expected: Triple, iterations: nat, condition: Option<real>)

  const NOTHING := TrilatResult(0.0, 0.0, 0.0, 0.0, 0.0, [0.0, 0.0, 0.0], [0.0, 0.0, 0.0], 0, Some(0.0))

  predicate UsableAnchor(a: Anchor) {
    ValidLatLon(a.latDeg, a.lonDeg) && a.distanceM > 0.0
  }

  predicate UsableAnchors(anchors: seq<Anchor>) {
    forall i :: 0 <= i < |anchors| ==> UsableAnchor(anchors[i])
  }

  predicate GoodCondition(condition: Option<real>) {
    condition.Some? && condition.value <= MAX_GEOMETRY_CONDITION
  }

  /** The search at the initial guess, if that is on the globe. */
  function FirstSearch(l: Landscape, guess: (real, real)): Option<Search> {
    var latRad, lonRad := guess.0 * DEG_TO_RAD, guess.1 * DEG_TO_RAD;
    match l.at(latRad, lonRad)
    case None => None
    case Some(fit) => Some(Search(latRad, lonRad, INITIAL_LAMBDA, fit, false))
  }

  function Conclude(e: Ending, altM: real, condition: Option<real>): (TrilatStatus, TrilatResult) {
    match e.pass
    case Stop(status) => (status, NOTHING.(iterations := e.passes, condition := condition))
    case Converged(s) => (TrilatOk, Filled(s, altM, e.passes, condition))
    case Again(s) => (if s.accepted then TrilatOk else NoConvergence, Filled(s, altM, e.passes, condition))
  }

  function Filled(s: Search, altM: real, passes: nat, condition: Option<real>): TrilatResult {
    TrilatResult(AsDegrees(s.latRad), NormalizeLon(AsDegrees(s.lonRad)), altM, s.fit.rms, s.fit.maxAbs,
                 s.fit.residuals, s.fit.expected, passes, condition)
  }

  /** The solver once its inputs have passed the checks. */
  function SolveFrom(l: Landscape, guess: (real, real), altM: real, condition: Option<real>)
    : (TrilatStatus, TrilatResult)
  {
    match FirstSearch(l, guess)
    case None => (InvalidInput, NOTHING.(condition := condition))
    case Some(first) => Conclude(Iterate(l, first, 0), altM, condition)
  }

  function Solve(g: Geodesy, anchors: seq<Anchor>, altM: real): (TrilatStatus, TrilatResult)
    requires |anchors| == NAV_TRILAT_ANCHOR_COUNT
  {
    if !UsableAnchors(anchors) then (InvalidInput, NOTHING)
    else
      var condition := g.condition(anchors);
      if !GoodCondition(condition) then (PoorGeometry, NOTHING.(condition := condition))
      else SolveFrom(LandscapeOf(g, anchors, altM), g.guess(anchors, altM), altM, condition)
  }

  /** What every pass keeps, counted from the search it all began with. */
  predicate Tracks(l: Landscape, first: Search, s: Search) {
    && l.at(s.latRad, s.lonRad) == Some(s.fit)
    && s.fit.rms <= first.fit.rms && s.lambda >= MIN_LAMBDA
    && (!s.accepted ==> s.latRad == first.latRad && s.lonRad == first.lonRad && s.fit == first.fit)
  }

  lemma PassTracks(l: Landscape, first: Search, s: Search)
    requires Tracks(l, first, s)
    ensures var pass := OnePass(l, s);
      && (!pass.Stop? ==> Tracks(l, first, pass.search))
      && (pass.Converged? ==> pass.search.accepted)
      && (pass.Stop? ==> pass.status.InvalidInput? || pass.status.PoorGeometry?)
  {
  }

  /** The loop ended as it can end, tracking its first search. */
  predicate EndsWell(l: Landscape, first: Search, e: Ending) {
    && e.passes <= MAX_ITERATIONS
    && match e.pass
       case Stop(status) => status.InvalidInput? || status.PoorGeometry?
       case Converged(s) => s.accepted && Tracks(l, first, s)
       case Again(s) => e.passes == MAX_ITERATIONS && Tracks(l, first, s)
  }

  lemma {:induction false} IterateEndsWell(l: Landscape, first: Search, s: Search, done: nat)
    requires done <= MAX_ITERATIONS && Tracks(l, first, s)
    ensures EndsWell(l, first, Iterate(l, s, done)) && Iterate(l, s, done).passes >= done
    ensures done < MAX_ITERATIONS ==> Iterate(l, s, done).passes > done
    decreases MAX_ITERATIONS - done
  {
    if done < MAX_ITERATIONS {
      PassTracks(l, first, s);
      if OnePass(l, s).Again? {
        IterateEndsWell(l, first, OnePass(l, s).search, done + 1);
      }
    }
  }

  /** The result is the fit at the point it returns. */
  predicate ResultIsFit(g: Geodesy, anchors: seq<Anchor>, altM: real, r: TrilatResult)
    requires |anchors| == NAV_TRILAT_ANCHOR_COUNT
  {
    && ValidLatLon(r.latDeg, r.lonDeg) && r.altM == altM
    && FitAt(g, anchors, r.latDeg, r.lonDeg, altM) == Fit(r.residuals, r.expected, r.rms, r.maxAbs)
  }

  lemma FilledIsFit(g: Geodesy, anchors: seq<Anchor>, altM: real, s: Search, passes: nat, condition: Option<real>)
    requires |anchors| == NAV_TRILAT_ANCHOR_COUNT && FitAtRad(g, anchors, s.latRad, s.lonRad, altM) == Some(s.fit)
    ensures ResultIsFit(g, anchors, altM, Filled(s, altM, passes, condition))
  {
  }

  /** A search run to an end is delivered as it stands, with success exactly if a candidate was taken. */
  lemma ConclusionStands(l: Landscape, first: Search, e: Ending, altM: real, condition: Option<real>)
    requires EndsWell(l, first, e) && !e.pass.Stop?
    ensures var (status, r) := Conclude(e, altM, condition);
      && r == Filled(e.pass.search, altM, e.passes, condition) && r.rms <= first.fit.rms
      && status == (if e.pass.search.accepted then TrilatOk else NoConvergence)
      && (status.NoConvergence? ==> r == Filled(first, altM, MAX_ITERATIONS, condition))
  {
    if !e.pass.search.accepted {
      SamePointSameResult(e.pass.search, first, altM, e.passes, condition);
    }
  }

  lemma SamePointSameResult(s: Search, t: Search, altM: real, passes: nat, condition: Option<real>)
    requires s.latRad == t.latRad && s.lonRad == t.lonRad && s.fit == t.fit
    ensures Filled(s, altM, passes, condition) == Filled(t, altM, passes, condition)
  {
  }

  /** Whenever the solver gets through its loop it returns the fit at the point it returns, no worse than at the initial
      guess, within thirty passes; it succeeds exactly when some candidate was taken, and otherwise the point returned
      is the guess itself. */
  lemma SolverReturnsItsFit(g: Geodesy, anchors: seq<Anchor>, altM: real)
    requires |anchors| == NAV_TRILAT_ANCHOR_COUNT
    ensures var (status, r) := Solve(g, anchors, altM);
      var first := FirstSearch(LandscapeOf(g, anchors, altM), g.guess(anchors, altM));
      status.TrilatOk? || status.NoConvergence? ==>
        && UsableAnchors(anchors) && GoodCondition(g.condition(anchors)) && first.Some?
        && 1 <= r.iterations <= MAX_ITERATIONS
        && ResultIsFit(g, anchors, altM, r) && r.rms <= first.value.fit.rms
        && (var e := Iterate(LandscapeOf(g, anchors, altM), first.value, 0);
            !e.pass.Stop? && (status.TrilatOk? <==> e.pass.search.accepted))
        && (status.NoConvergence? ==> r == Filled(first.value, altM, MAX_ITERATIONS, g.condition(anchors)))
  {
    var l := LandscapeOf(g, anchors, altM);
    var first := FirstSearch(l, g.guess(anchors, altM));
    if UsableAnchors(anchors) && GoodCondition(g.condition(anchors)) && first.Some? {
      var e := Iterate(l, first.value, 0);
      IterateEndsWell(l, first.value, first.value, 0);
      if !e.pass.Stop? {
        ConclusionStands(l, first.value, e, altM, g.condition(anchors));
        FilledIsFit(g, anchors, altM, e.pass.search, e.passes, g.condition(anchors));
      }
    }
  }

  /** The least damping after `k` passes: a tenth of what it was, pass by pass. */
  function LambdaFloor(k: nat): (f: real)
    ensures 0.0 < f <= INITIAL_LAMBDA
  {
    if k == 0 then INITIAL_LAMBDA else LambdaFloor(k - 1) / 10.0
  }

  lemma EarlyFloor(k: nat)
    requires k <= 6
    ensures LambdaFloor(k) >= 0.000000001
  {
    assert LambdaFloor(1) == 0.0001 && LambdaFloor(2) == 0.00001 && LambdaFloor(3) == 0.000001;
    assert LambdaFloor(4) == 0.0000001 && LambdaFloor(5) == 0.00000001 && LambdaFloor(6) == 0.000000001;
  }

  lemma PassDamps(l: Landscape, s: Search, k: nat)
    requires s.lambda >= LambdaFloor(k)
    ensures OnePass(l, s).Again? ==> OnePass(l, s).search.lambda >= LambdaFloor(k + 1)
    ensures k <= 6 ==> OnePass(l, s) != Stop(PoorGeometry)
  {
    var j := JacobianAt(l, s.latRad, s.lonRad);
    if k <= 6 && j.Some? {
      EarlyFloor(k);
      DampedStepExists(j.value, s.fit.residuals, s.lambda);
    }
  }

  lemma {:induction false} IterateDamped(l: Landscape, s: Search, done: nat)
    requires done <= MAX_ITERATIONS && s.lambda >= LambdaFloor(done)
    ensures Iterate(l, s, done).pass == Stop(PoorGeometry) ==> Iterate(l, s, done).passes >= 8
    decreases MAX_ITERATIONS - done
  {
    if done < MAX_ITERATIONS {
      PassDamps(l, s, done);
      if OnePass(l, s).Again? {
        IterateDamped(l, OnePass(l, s).search, done + 1);
      }
    }
  }

  /** The determinant guard cannot fire in the first seven passes: a geometry failure is either found before the loop or
      comes only once the damping has been worn down. */
  lemma GeometryFailsEarlyOrLate(g: Geodesy, anchors: seq<Anchor>, altM: real)
    requires |anchors| == NAV_TRILAT_ANCHOR_COUNT
    ensures var (status, r) := Solve(g, anchors, altM);
      status.PoorGeometry? ==> r.iterations >= 8 || (r.iterations == 0 && !GoodCondition(g.condition(anchors)))
  {
    var l := LandscapeOf(g, anchors, altM);
    var first := FirstSearch(l, g.guess(anchors, altM));
    if UsableAnchors(anchors) && GoodCondition(g.condition(anchors)) && first.Some? {
      IterateDamped(l, first.value, 0);
      IterateEndsWell(l, first.value, first.value, 0);
    }
  }

  lemma OnePassOn(l: Landscape, s: Search, done: nat)
    requires done < MAX_ITERATIONS
    ensures Iterate(l, s, done) ==
      if OnePass(l, s).Again? then Iterate(l, OnePass(l, s).search, done + 1) else Ending(done + 1, OnePass(l, s))
  {
  }

  /** The solver as the navigation core calls it. */
  function ReplyFor(g: Geodesy, input: NavState.SolveInput): NavState.SolveReply {
    if |input.anchors| != NAV_TRILAT_ANCHOR_COUNT then NavState.NoFix
    else
      var (status, r) := Solve(g, input.anchors, input.targetAltM);
      if status.TrilatOk? then NavState.Fix(r.latDeg, r.lonDeg, r.rms, r.maxAbs, r.residuals) else NavState.NoFix
  }

  /** A fix the core receives carries the residuals of its own anchors at the point it names. */
  lemma CoreReceivesTheFit(g: Geodesy, input: NavState.SolveInput)
    requires ReplyFor(g, input).Fix?
    ensures |input.anchors| == NAV_TRILAT_ANCHOR_COUNT && UsableAnchors(input.anchors)
    ensures var reply := ReplyFor(g, input);
      var fit := FitAt(g, input.anchors, reply.latDeg, reply.lonDeg, input.targetAltM);
      && ValidLatLon(reply.latDeg, reply.lonDeg)
      && reply.rmsM == fit.rms && reply.maxAbsM == fit.maxAbs && reply.residualsM == fit.residuals
      && forall i :: 0 <= i < NAV_TRILAT_ANCHOR_COUNT ==> Abs(reply.residualsM[i]) <= reply.maxAbsM
  {
    SolverReturnsItsFit(g, input.anchors, input.targetAltM);
    var r := Solve(g, input.anchors, input.targetAltM).1;
    MaxAbsIsMax(r.residuals, NAV_TRILAT_ANCHOR_COUNT);
  }

  // ---- the solver, step by step -----------------------------------------

  /** Fills both arrays with the fit at a point and sums it up. */
  method ComputeResiduals(
    g: Geodesy, anchors: seq<Anchor>, latDeg: real, lonDeg: real, altM: real,
    residuals: array<real>, expected: array<real>)
    returns (rms: real, maxAbs: real)
    requires |anchors| == residuals.Length == expected.Length == NAV_TRILAT_ANCHOR_COUNT && residuals != expected
    modifies residuals, expected
    ensures Fit(residuals[..], expected[..], rms, maxAbs) == FitAt(g, anchors, latDeg, lonDeg, altM)
  {
    ghost var e := Expected(g, anchors, latDeg, lonDeg, altM);
    ghost var r := Residuals(anchors, e);
    var sumSquares := 0.0;
    maxAbs := 0.0;
    for i := 0 to NAV_TRILAT_ANCHOR_COUNT
      invariant forall k :: 0 <= k < i ==> expected[k] == e[k] && residuals[k] == r[k]
      invariant sumSquares == Dot(r, r, i) && maxAbs == MaxAbs(r, i)
    {
      expected[i] := g.distance(anchors[i], latDeg, lonDeg, altM);
      residuals[i] := expected[i] - anchors[i].distanceM;
      sumSquares := sumSquares + residuals[i] * residuals[i];
      maxAbs := Max(maxAbs, Abs(residuals[i]));
    }
    assert residuals[..] == r && expected[..] == e;
    rms := g.root(sumSquares / NAV_TRILAT_ANCHOR_COUNT as real);
  }

  method ResidualVector(
    g: Geodesy, anchors: seq<Anchor>, latRad: real, lonRad: real, altM: real,
    residuals: array<real>, expected: array<real>)
    returns (ok: bool, rms: real, maxAbs: real)
    requires |anchors| == residuals.Length == expected.Length == NAV_TRILAT_ANCHOR_COUNT && residuals != expected
    modifies residuals, expected
    ensures FitAtRad(g, anchors, latRad, lonRad, altM)
         == if ok then Some(Fit(residuals[..], expected[..], rms, maxAbs)) else None
  {
    var latDeg, lonDeg := AsDegrees(latRad), NormalizeLon(AsDegrees(lonRad));
    rms, maxAbs := 0.0, 0.0;
    ok := ValidLatLon(latDeg, lonDeg);
    if ok {
      rms, maxAbs := ComputeResiduals(g, anchors, latDeg, lonDeg, altM, residuals, expected);
    }
  }

  /** The landscape is the one these anchors span. */
  ghost predicate Spans(g: Geodesy, anchors: seq<Anchor>, altM: real, l: Landscape)
    requires |anchors| == NAV_TRILAT_ANCHOR_COUNT
  {
    && l.hypot == g.hypot
    && forall latRad, lonRad {:trigger FitAtRad(g, anchors, latRad, lonRad, altM)} ::
         l.at(latRad, lonRad) == FitAtRad(g, anchors, latRad, lonRad, altM)
  }

  method Evaluate(
    g: Geodesy, anchors: seq<Anchor>, altM: real, ghost l: Landscape, latRad: real, lonRad: real,
    residuals: array<real>, expected: array<real>)
    returns (ok: bool, rms: real, maxAbs: real)
    requires |anchors| == residuals.Length == expected.Length == NAV_TRILAT_ANCHOR_COUNT && residuals != expected
    requires Spans(g, anchors, altM, l)
    modifies residuals, expected
    ensures l.at(latRad, lonRad) == if ok then Some(Fit(residuals[..], expected[..], rms, maxAbs)) else None
  {
    ok, rms, maxAbs := ResidualVector(g, anchors, latRad, lonRad, altM, residuals, expected);
  }

  method Slopes(plus: array<real>, minus: array<real>) returns (s: Triple)
    requires plus.Length == minus.Length == NAV_TRILAT_ANCHOR_COUNT
    ensures s == Slope(plus[..], minus[..])
  {
    var slopes := new real[NAV_TRILAT_ANCHOR_COUNT];
    for i := 0 to NAV_TRILAT_ANCHOR_COUNT
      invariant forall k :: 0 <= k < i ==> slopes[k] == Slope(plus[..], minus[..])[k]
    {
      slopes[i] := (plus[i] - minus[i]) / (2.0 * FINITE_DIFF_RAD);
    }
    assert slopes[..] == Slope(plus[..], minus[..]);
    s := slopes[..];
  }

  /** One column of the Jacobian, from the residuals on either side of the point. */
  method Differentiate(
    g: Geodesy, anchors: seq<Anchor>, altM: real, ghost l: Landscape, latRad: real, lonRad: real, dLat: real, dLon: real)
    returns (column: Option<Triple>)
    requires |anchors| == NAV_TRILAT_ANCHOR_COUNT && Spans(g, anchors, altM, l)
    ensures var plus, minus := l.at(latRad + dLat, lonRad + dLon), l.at(latRad - dLat, lonRad - dLon);
      column == if plus.None? || minus.None? then None
                else Some(Slope(plus.value.residuals, minus.value.residuals))
  {
    var n := NAV_TRILAT_ANCHOR_COUNT;
    var plus, minus, unused := new real[n], new real[n], new real[n];
    var ok, unusedRms, unusedMax := Evaluate(g, anchors, altM, l, latRad + dLat, lonRad + dLon, plus, unused);
    if !ok {
      return None;
    }
    ok, unusedRms, unusedMax := Evaluate(g, anchors, altM, l, latRad - dLat, lonRad - dLon, minus, unused);
    if !ok {
      return None;
    }
    var slopes := Slopes(plus, minus);
    column := Some(slopes);
  }

  /** Accumulates the damped normal equations and solves them. */
  method NormalStep(lat: Triple, lon: Triple, r: Triple, lambda: real) returns (step: Option<(real, real)>)
    ensures step == RawStep(Jacobian(lat, lon), r, lambda)
  {
    var jtj00, jtj01, jtj11 := lambda, 0.0, lambda;
    var rhs0, rhs1 := 0.0, 0.0;
    for i := 0 to NAV_TRILAT_ANCHOR_COUNT
      invariant jtj00 == lambda + Dot(lat, lat, i) && jtj11 == lambda + Dot(lon, lon, i) && jtj01 == Dot(lat, lon, i)
      invariant rhs0 == -Dot(lat, r, i) && rhs1 == -Dot(lon, r, i)
    {
      jtj00 := jtj00 + lat[i] * lat[i];
      jtj01 := jtj01 + lat[i] * lon[i];
      jtj11 := jtj11 + lon[i] * lon[i];
      rhs0 := rhs0 - lat[i] * r[i];
      rhs1 := rhs1 - lon[i] * r[i];
    }
    step := Solve2x2(jtj00, jtj01, jtj01, jtj11, rhs0, rhs1);
  }

  /** The step a pass makes: its direction from the normal equations, its length limited. */
  method StepFrom(
    g: Geodesy, anchors: seq<Anchor>, altM: real, ghost l: Landscape, ghost s: Search,
    latRad: real, lonRad: real, r: Triple, lambda: real)
    returns (failure: Option<TrilatStatus>, step: (real, real))
    requires |anchors| == NAV_TRILAT_ANCHOR_COUNT && Spans(g, anchors, altM, l)
    requires s.latRad == latRad && s.lonRad == lonRad && s.fit.residuals == r && s.lambda == lambda
    ensures OnePass(l, s) == if failure.Some? then Stop(failure.value) else Candidate(l, s, step)
  {
    step := (0.0, 0.0);
    var lat := Differentiate(g, anchors, altM, l, latRad, lonRad, FINITE_DIFF_RAD, 0.0);
    if lat.None? {
      return Some(InvalidInput), step;
    }
    var lon := Differentiate(g, anchors, altM, l, latRad, lonRad, 0.0, FINITE_DIFF_RAD);
    if lon.None? {
      return Some(InvalidInput), step;
    }
    assert JacobianAt(l, latRad, lonRad) == Some(Jacobian(lat.value, lon.value));
    var raw := NormalStep(lat.value, lon.value, r, lambda);
    if raw.None? {
      return Some(PoorGeometry), step;
    }
    step := Limited(g.hypot(raw.value.0, raw.value.1), raw.value);
    failure := None;
  }

  method CopyInto(from: array<real>, to: array<real>)
    requires from.Length == to.Length && from != to
    modifies to
    ensures to[..] == from[..]
  {
    for i := 0 to from.Length
      invariant to[..i] == from[..i]
    {
      to[i] := from[i];
    }
    assert to[..] == to[..to.Length];
  }

  lemma CandidateTaken(l: Landscape, s: Search, step: (real, real), fit: Fit)
    requires l.at(s.latRad + step.0, s.lonRad + step.1) == Some(fit) && fit.rms <= s.fit.rms
    ensures var next := Search(s.latRad + step.0, s.lonRad + step.1, Relaxed(s.lambda), fit, true);
      Candidate(l, s, step) ==
      if l.hypot(step.0, step.1) < CONVERGENCE_STEP_RAD || fit.rms < CONVERGENCE_RMS_M then Converged(next)
      else Again(next)
  {
  }

  /** Tries a step, and overwrites the arrays if it is taken. */
  method TryCandidate(
    g: Geodesy, anchors: seq<Anchor>, altM: real, ghost l: Landscape, s: Search, step: (real, real),
    residuals: array<real>, expected: array<real>)
    returns (pass: Pass)
    requires |anchors| == residuals.Length == expected.Length == NAV_TRILAT_ANCHOR_COUNT && residuals != expected
    requires Spans(g, anchors, altM, l) && residuals[..] == s.fit.residuals && expected[..] == s.fit.expected
    modifies residuals, expected
    ensures pass == Candidate(l, s, step)
    ensures !pass.Stop? ==> residuals[..] == pass.search.fit.residuals && expected[..] == pass.search.fit.expected
  {
    var candidate, candidateExpected := new real[NAV_TRILAT_ANCHOR_COUNT], new real[NAV_TRILAT_ANCHOR_COUNT];
    var candidateLat, candidateLon := s.latRad + step.0, s.lonRad + step.1;
    var ok, rms, maxAbs := Evaluate(g, anchors, altM, l, candidateLat, candidateLon, candidate, candidateExpected);
    if !ok {
      return Again(s.(lambda := s.lambda * 10.0));
    }
    if rms > s.fit.rms {
      return Again(s.(lambda := Stiffened(s.lambda)));
    }
    var fit := Fit(candidate[..], candidateExpected[..], rms, maxAbs);
    CandidateTaken(l, s, step, fit);
    CopyInto(candidate, residuals);
    CopyInto(candidateExpected, expected);
    var taken := Search(candidateLat, candidateLon, Relaxed(s.lambda), fit, true);
    pass := if g.hypot(step.0, step.1) < CONVERGENCE_STEP_RAD || rms < CONVERGENCE_RMS_M then Converged(taken)
            else Again(taken);
  }

  /** One pass of the loop. */
  method TakePass(
    g: Geodesy, anchors: seq<Anchor>, altM: real, ghost l: Landscape, s: Search,
    residuals: array<real>, expected: array<real>)
    returns (pass: Pass)
    requires |anchors| == residuals.Length == expected.Length == NAV_TRILAT_ANCHOR_COUNT && residuals != expected
    requires Spans(g, anchors, altM, l) && residuals[..] == s.fit.residuals && expected[..] == s.fit.expected
    modifies residuals, expected
    ensures pass == OnePass(l, s)
    ensures !pass.Stop? ==> residuals[..] == pass.search.fit.residuals && expected[..] == pass.search.fit.expected
  {
    var failure, step := StepFrom(g, anchors, altM, l, s, s.latRad, s.lonRad, residuals[..], s.lambda);
    if failure.Some? {
      return Stop(failure.value);
    }
    pass := TryCandidate(g, anchors, altM, l, s, step, residuals, expected);
  }

  /** The loop of the solver: the best point, its fit and the damping are replaced pass by pass. */
  method RunSearch(
    g: Geodesy, anchors: seq<Anchor>, altM: real, ghost l: Landscape, first: Search,
    residuals: array<real>, expected: array<real>)
    returns (e: Ending)
    requires |anchors| == residuals.Length == expected.Length == NAV_TRILAT_ANCHOR_COUNT && residuals != expected
    requires Spans(g, anchors, altM, l) && residuals[..] == first.fit.residuals && expected[..] == first.fit.expected
    modifies residuals, expected
    ensures e == Iterate(l, first, 0)
  {
    var s := first;
    for iter := 0 to MAX_ITERATIONS
      invariant residuals[..] == s.fit.residuals && expected[..] == s.fit.expected
      invariant Iterate(l, first, 0) == Iterate(l, s, iter)
    {
      var pass := TakePass(g, anchors, altM, l, s, residuals, expected);
      OnePassOn(l, s, iter);
      if !pass.Again? {
        return Ending(iter + 1, pass);
      }
      s := pass.search;
    }
    e := Ending(MAX_ITERATIONS, Again(s));
  }

  method SolveAnchors(g: Geodesy, anchors: seq<Anchor>, altM: real) returns (status: TrilatStatus, r: TrilatResult)
    requires |anchors| == NAV_TRILAT_ANCHOR_COUNT
    ensures (status, r) == Solve(g, anchors, altM)
  {
    r := NOTHING;
    for i := 0 to NAV_TRILAT_ANCHOR_COUNT
      invariant forall k :: 0 <= k < i ==> UsableAnchor(anchors[k])
    {
      if !UsableAnchor(anchors[i]) {
        return InvalidInput, r;
      }
    }
    r := r.(condition := g.condition(anchors));
    if !GoodCondition(r.condition) {
      return PoorGeometry, r;
    }
    status, r := SearchFromGuess(g, anchors, altM, LandscapeOf(g, anchors, altM), r.condition);
  }

  method SearchFromGuess(
    g: Geodesy, anchors: seq<Anchor>, altM: real, ghost l: Landscape, condition: Option<real>)
    returns (status: TrilatStatus, r: TrilatResult)
    requires |anchors| == NAV_TRILAT_ANCHOR_COUNT && Spans(g, anchors, altM, l)
    ensures (status, r) == SolveFrom(l, g.guess(anchors, altM), altM, condition)
  {
    var guess := g.guess(anchors, altM);
    var latRad, lonRad := guess.0 * DEG_TO_RAD, guess.1 * DEG_TO_RAD;
    var residuals, expected := new real[NAV_TRILAT_ANCHOR_COUNT], new real[NAV_TRILAT_ANCHOR_COUNT];
    var ok, rms, maxAbs := Evaluate(g, anchors, altM, l, latRad, lonRad, residuals, expected);
    if !ok {
      return InvalidInput, NOTHING.(condition := condition);
    }
    var first := Search(latRad, lonRad, INITIAL_LAMBDA, Fit(residuals[..], expected[..], rms, maxAbs), false);
    assert FirstSearch(l, guess) == Some(first);
    var e := RunSearch(g, anchors, altM, l, first, residuals, expected);
    var concluded := Conclude(e, altM, condition);
    status, r := concluded.0, concluded.1;
  }
}
