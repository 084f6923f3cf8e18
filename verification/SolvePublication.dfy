/** What a solver call publishes, told from its input and the solver's answer alone. */
module SolvePublication {
  import opened Words
  import opened NavTypes
  import opened AnchorSelection
  import opened NavState

  function E7(degrees: real): int32 {
    AsInt32(Wrap32(RoundHalfAway(degrees * 10000000.0)))
  }

  function Millimetres(metres: real): int {
    RoundHalfAway(metres * 1000.0)
  }

  /** The fix exceeds a residual limit. */
  predicate Outlying(fix: SolveReply, c: Config)
    requires fix.Fix?
  {
    fix.rmsM > c.maxResidualRmsM || fix.maxAbsM > c.maxResidualM
  }

  /** The triangle is large enough not to count against the solution. */
  predicate WideEnough(area: real, c: Config) {
    area >= c.degradedTriangleAreaM2 || c.degradedTriangleAreaM2 <= 0.0
  }

  /** The sum of the qualities of the first `n` anchors. */
  function QualitySum(anchors: seq<Anchor>, n: nat): real
    requires n <= |anchors|
  {
    if n == 0 then 0.0 else QualitySum(anchors, n - 1) + anchors[n - 1].quality
  }

  lemma {:induction false} MeanIsShare(anchors: seq<Anchor>, n: nat)
    requires n <= |anchors|
    ensures MeanQuality(anchors[..n]) == QualitySum(anchors, n) / 3.0
  {
    if n > 0 {
      MeanIsShare(anchors, n - 1);
      assert anchors[..n][..n - 1] == anchors[..n - 1];
    }
  }

  /** A triangle below the comfortable area scores its share of it, and lies in between. */
  lemma ScoreIsShare(area: real, c: Config)
    ensures var score := GeometryScore(area, c);
      && 0.0 <= score <= 1.0 && (score == 1.0 <==> WideEnough(area, c))
      && (!WideEnough(area, c) ==> score * c.degradedTriangleAreaM2 == if area <= 0.0 then 0.0 else area)
  {
    if !WideEnough(area, c) && area > 0.0 {
      RatioBounds(area, c.degradedTriangleAreaM2);
    }
  }

  /** What an answered call publishes. */
  predicate Publishes(sn: Snapshot, sel: Selection, altMm: int32, area: real, fix: SolveReply, c: Config)
    requires fix.Fix? && |sel.anchors| == NAV_TRILAT_ANCHOR_COUNT
  {
    && sn.position == Position(E7(fix.latDeg), E7(fix.lonDeg), altMm)
    && sn.haccMm == Wrap32(Millimetres(if fix.maxAbsM < 0.0 then -fix.maxAbsM else fix.maxAbsM)) && sn.vaccMm == 0
    && sn.diag.residualRmsM == fix.rmsM && sn.diag.maxResidualM == fix.maxAbsM
    && |sn.diag.residualsMm| == NAV_TRILAT_ANCHOR_COUNT
    && (forall i :: 0 <= i < NAV_TRILAT_ANCHOR_COUNT ==>
          && sn.diag.residualsMm[i] == AsInt32(Wrap32(Millimetres(fix.residualsM[i]))))
    && sn.diag.triangleAreaM2 == area && sn.diag.altitudeValid
    && sn.diag.totalQuality == QualitySum(sel.anchors, NAV_TRILAT_ANCHOR_COUNT) / 3.0 * sn.diag.geometryScore
  }

  /** How it is graded: refused if the fix is an outlier, full if the solution is good and the triangle wide, degraded in
      between. */
  predicate GradedRightly(sn: Snapshot, area: real, fix: SolveReply, c: Config)
    requires fix.Fix?
  {
    && (sn.status.Rejected? <==> Outlying(fix, c))
    && (sn.status.Radio3D? <==> !Outlying(fix, c) && sn.diag.totalQuality >= c.minSolutionQuality && WideEnough(area, c))
    && (sn.status.Degraded? <==>
          !Outlying(fix, c) && (sn.diag.totalQuality < c.minSolutionQuality || !WideEnough(area, c)))
    && (sn.status.Rejected? ==> sn.source.SourceNone? && sn.mode.NoNavSolution? && sn.reject.RangeOutlier?)
    && (!sn.status.Rejected? ==> sn.source.SourceRadio3D? && sn.reject.NotRejected?)
    && (sn.mode.RadioNavOk? <==> sn.status.Radio3D?) && (sn.mode.RadioNavDegraded? <==> sn.status.Degraded?)
  }

  lemma GradedPublishes(
    noted: Core, s: Core, now: uint32, sel: Selection, altitude: LocalAltitude, area: real, input: SolveInput,
    fix: SolveReply)
    requires SelectionFits(sel) && fix.Fix? && |sel.anchors| == NAV_TRILAT_ANCHOR_COUNT && noted.config == s.config
    ensures var r := Ruled(noted, s, now, sel, Solved(altitude, area, input, fix));
      && Publishes(r.snapshot, sel, altitude.altMm, area, fix, s.config)
      && r.snapshot.diag.geometryScore == GeometryScore(area, s.config)
      && GradedRightly(r.snapshot, area, fix, s.config)
      && r.snapshot.solve.outcome == (if r.snapshot.status.Rejected? then OutcomeRejected else OutcomeSolved)
      && r.snapshot.timeMs == now && r.mode == r.snapshot.mode
  {
    MeanIsShare(sel.anchors, NAV_TRILAT_ANCHOR_COUNT);
    assert sel.anchors[..NAV_TRILAT_ANCHOR_COUNT] == sel.anchors;
    ScoreIsShare(area, s.config);
  }

  lemma FailedPublishes(
    noted: Core, s: Core, now: uint32, sel: Selection, altitude: LocalAltitude, area: real, input: SolveInput)
    requires SelectionFits(sel)
    ensures var r := Ruled(noted, s, now, sel, SolverFailed(altitude, area, input));
      && r.snapshot.status.Rejected? && r.snapshot.reject.TrilaterationFailed? && r.snapshot.source.SourceNone?
      && r.snapshot.position == Position(0, 0, 0) && r.snapshot.haccMm == 0 && r.mode == NoNavSolution
      && r.snapshot.timeMs == now
  {
  }

  /** The anchors shown are the ones the solver was given. */
  predicate ShowsAnchors(sn: Snapshot, input: SolveInput) {
    && |input.anchors| == NAV_TRILAT_ANCHOR_COUNT && |sn.diag.selectedIds| == NAV_TRILAT_ANCHOR_COUNT
    && sn.diag.numAnchors == NAV_TRILAT_ANCHOR_COUNT
    && forall i :: 0 <= i < NAV_TRILAT_ANCHOR_COUNT ==> sn.diag.selectedIds[i] == input.anchors[i].nodeId
  }

  /** In the refresh that makes a call: the altitude published is the one solved for, the anchors shown are the ones
      solved from, and the answer is published and graded as the solver gave it. */
  lemma CallIsPublished(num: Numerics, s: Core, now: uint32, allowSolve: bool)
    requires |s.peers| == NAV_MAX_NODES && Refresh(num, s, now, allowSolve).call.Some?
    ensures var input := Refresh(num, s, now, allowSolve).call.value;
      var sn := Refresh(num, s, now, allowSolve).core.snapshot;
      && ShowsAnchors(sn, input) && sn.timeMs == now
      && match num.solve(input)
         case NoFix => sn.status.Rejected? && sn.reject.TrilaterationFailed? && sn.position == Position(0, 0, 0)
         case Fix(_, _, _, _, _) =>
           && Publishes(sn, SelectionAt(s, now), sn.position.altMm, num.area(SelectionAt(s, now).anchors),
                        num.solve(input), s.config)
           && GradedRightly(sn, num.area(SelectionAt(s, now).anchors), num.solve(input), s.config)
           && input.targetAltM == (if s.config.ignoreAltitude then 0.0 else sn.position.altMm as real / 1000.0)
  {
    var sel := SelectionAt(s, now);
    var ruling := Rule(num, s, now, sel);
    CallShowsAnchors(num, s, now);
    if ruling.Solved? {
      GradedPublishes(Noted(s, now, sel), s, now, sel, ruling.altitude, ruling.area, ruling.input, ruling.fix);
    } else {
      FailedPublishes(Noted(s, now, sel), s, now, sel, ruling.altitude, ruling.area, ruling.input);
    }
  }

  lemma CallShowsAnchors(num: Numerics, s: Core, now: uint32)
    requires |s.peers| == NAV_MAX_NODES
    ensures var sel := SelectionAt(s, now);
      var ruling := Rule(num, s, now, sel);
      ruling.Solved? || ruling.SolverFailed? ==>
        ShowsAnchors(Ruled(Noted(s, now, sel), s, now, sel, ruling).snapshot, ruling.input)
  {
    var sel := SelectionAt(s, now);
    var ruling := Rule(num, s, now, sel);
    if ruling.Solved? || ruling.SolverFailed? {
      RulingShowsAnchors(Noted(s, now, sel), s, now, sel, ruling);
    }
  }

  lemma RulingShowsAnchors(noted: Core, s: Core, now: uint32, sel: Selection, ruling: Ruling)
    requires SelectionFits(sel) && |sel.anchors| == NAV_TRILAT_ANCHOR_COUNT
    requires ruling.Solved? ==> ruling.fix.Fix?
    requires ruling.Solved? || ruling.SolverFailed?
    requires ruling.input == InputFor(sel.anchors, ruling.altitude.altMm, s.config.ignoreAltitude)
    ensures ShowsAnchors(Ruled(noted, s, now, sel, ruling).snapshot, ruling.input)
  {
  }
}
