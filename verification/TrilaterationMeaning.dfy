/** What the solver's figures mean, which inputs it takes, and what it answers when it finds nothing better. */
module TrilaterationMeaning {
  import opened NavTypes
  import opened Trilateration

  // ---- angles -----------------------------------------------------------

  lemma Quotient(n: real, d: real, k: real) returns (q: real)
    requires d != 0.0
    ensures q == k * (n / d) && q * d == k * n
  {
    q := k * (n / d);
    assert n / d * d == n;
  }

  lemma SameFactor(x: real, y: real, d: real)
    requires d != 0.0 && x * d == y * d
    ensures x == y
  {
    assert (x - y) * d == 0.0;
  }

  lemma Inverse(x: real, a: real, b: real, y: real, z: real)
    requires a != 0.0 && b != 0.0 && y == x * (a / b) && z == y * (b / a)
    ensures z == x
  {
    var y' := Quotient(a, b, x);
    var z' := Quotient(b, a, y);
    SameFactor(z', x, a);
  }

  /** Degrees turned into radians turn back into the same degrees. */
  lemma DegreesReturn(degrees: real)
    ensures AsDegrees(degrees * DEG_TO_RAD) == degrees
  {
    Inverse(degrees, PI, 180.0, degrees * DEG_TO_RAD, AsDegrees(degrees * DEG_TO_RAD));
  }

  // ---- the fit ----------------------------------------------------------

  /** Each residual is how much farther the point is from the anchor than was measured; their mean square is the square of
      the reported figure, for any root. */
  lemma FitMeans(g: Geodesy, anchors: seq<Anchor>, latDeg: real, lonDeg: real, altM: real)
    requires |anchors| == NAV_TRILAT_ANCHOR_COUNT
    ensures var fit := FitAt(g, anchors, latDeg, lonDeg, altM);
      forall i :: 0 <= i < NAV_TRILAT_ANCHOR_COUNT ==>
        && fit.expected[i] == g.distance(anchors[i], latDeg, lonDeg, altM)
        && fit.residuals[i] == g.distance(anchors[i], latDeg, lonDeg, altM) - anchors[i].distanceM
    ensures (forall x: real {:trigger g.root(x)} :: x >= 0.0 ==> g.root(x) * g.root(x) == x) ==>
      var fit := FitAt(g, anchors, latDeg, lonDeg, altM);
      3.0 * (fit.rms * fit.rms) == fit.residuals[0] * fit.residuals[0] + fit.residuals[1] * fit.residuals[1]
                                   + fit.residuals[2] * fit.residuals[2]
  {
    var fit := FitAt(g, anchors, latDeg, lonDeg, altM);
    var r := fit.residuals;
    Dot3(r, r);
    SumOfSquares(r[0], r[1], r[2]);
    ThirdOf(Dot(r, r, 3));
  }

  lemma ThirdOf(x: real)
    requires x >= 0.0
    ensures x / 3.0 >= 0.0 && 3.0 * (x / 3.0) == x
  {
  }

  // ---- the inputs -------------------------------------------------------

  predicate OnGlobe(a: Anchor) {
    -90.0 <= a.latDeg <= 90.0 && -180.0 <= a.lonDeg <= 180.0
  }

  /** Anchors off the globe or without a positive distance are refused at once; so is a geometry whose condition is
      infinite or above 1e8. Nothing else is decided before the search. */
  lemma InputsChecked(g: Geodesy, anchors: seq<Anchor>, altM: real)
    requires |anchors| == NAV_TRILAT_ANCHOR_COUNT
    ensures var (status, r) := Solve(g, anchors, altM);
      var sound := forall i :: 0 <= i < NAV_TRILAT_ANCHOR_COUNT ==> OnGlobe(anchors[i]) && anchors[i].distanceM > 0.0;
      var condition := g.condition(anchors);
      && (!sound ==> status.InvalidInput? && r.iterations == 0)
      && (sound && (condition.None? || condition.value > 100000000.0) ==> status.PoorGeometry? && r.iterations == 0)
      && (status.TrilatOk? || status.NoConvergence? ==> sound && condition.Some? && condition.value <= 100000000.0)
  {
    assert UsableAnchors(anchors) <==>
      forall i :: 0 <= i < NAV_TRILAT_ANCHOR_COUNT ==> OnGlobe(anchors[i]) && anchors[i].distanceM > 0.0 by {
      forall i | 0 <= i < NAV_TRILAT_ANCHOR_COUNT
        ensures UsableAnchor(anchors[i]) <==> OnGlobe(anchors[i]) && anchors[i].distanceM > 0.0
      {
      }
    }
    SolverReturnsItsFit(g, anchors, altM);
  }

  // ---- no better point --------------------------------------------------

  lemma FirstIsGuess(l: Landscape, guess: (real, real), altM: real, passes: nat, condition: Option<real>)
    requires FirstSearch(l, guess).Some?
    ensures var r := Filled(FirstSearch(l, guess).value, altM, passes, condition);
      && r.latDeg == guess.0 && r.lonDeg == NormalizeLon(guess.1) && r.altM == altM && r.iterations == passes
  {
    DegreesReturn(guess.0);
    DegreesReturn(guess.1);
  }

  /** A solver that takes no candidate answers with the guess it started from, its longitude normalised. */
  lemma GivingUpReturnsGuess(g: Geodesy, anchors: seq<Anchor>, altM: real)
    requires |anchors| == NAV_TRILAT_ANCHOR_COUNT && Solve(g, anchors, altM).0.NoConvergence?
    ensures var r := Solve(g, anchors, altM).1;
      && r.latDeg == g.guess(anchors, altM).0 && r.lonDeg == NormalizeLon(g.guess(anchors, altM).1)
      && r.altM == altM && r.iterations == 30
  {
    SolverReturnsItsFit(g, anchors, altM);
    FirstIsGuess(LandscapeOf(g, anchors, altM), g.guess(anchors, altM), altM, MAX_ITERATIONS, g.condition(anchors));
  }

  /** A point has a fit exactly if its latitude is on the globe; its longitude is turned round as far as it takes. */
  lemma FitOnGlobe(g: Geodesy, anchors: seq<Anchor>, latRad: real, lonRad: real, altM: real)
    requires |anchors| == NAV_TRILAT_ANCHOR_COUNT
    ensures var fit := FitAtRad(g, anchors, latRad, lonRad, altM);
      && (fit.Some? <==> -90.0 <= AsDegrees(latRad) <= 90.0)
      && (fit.Some? ==> fit.value == FitAt(g, anchors, AsDegrees(latRad), NormalizeLon(AsDegrees(lonRad)), altM))
  {
    NormalizedLon(AsDegrees(lonRad));
  }
}
