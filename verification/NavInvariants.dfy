/** What holds of the navigation core in every reachable state. */
module NavInvariants {
  import opened Words
  import opened NavTypes
  import opened AnchorSelection
  import opened NavState

  /** The five legal combinations of mode, status, source and reject reason. */
  predicate LegalVerdict(sn: Snapshot) {
    || (sn.mode.Boot? && sn.status.NoSolution? && sn.source.SourceNone? && sn.reject.NotRejected?)
    || (sn.mode.GnssOk? && sn.status.GnssDirect? && sn.source.SourceLocalGnss? && sn.reject.NotRejected?)
    || (sn.mode.NoNavSolution? && sn.status.Rejected? && sn.source.SourceNone?
        && (sn.reject.NotEnoughAnchors? || sn.reject.MissingLocalAltitude? || sn.reject.BadGeometry?
            || sn.reject.TrilaterationFailed? || sn.reject.RangeOutlier?))
    || (sn.mode.RadioNavOk? && sn.status.Radio3D? && sn.source.SourceRadio3D? && sn.reject.NotRejected?)
    || (sn.mode.RadioNavDegraded? && sn.status.Degraded? && sn.source.SourceRadio3D? && sn.reject.NotRejected?)
  }

  /** A published radio solution passed every gate, however long ago it was solved. */
  predicate RadioSound(sn: Snapshot, c: Config) {
    sn.source.SourceRadio3D? ==>
      && sn.diag.numAnchors == |sn.diag.selectedIds| == NAV_TRILAT_ANCHOR_COUNT
      && Distinct(sn.diag.selectedIds)
      && (forall id <- sn.diag.selectedIds :: id < NAV_MAX_NODES && id != c.localNodeId)
      && sn.diag.residualRmsM <= c.maxResidualRmsM && sn.diag.maxResidualM <= c.maxResidualM
      && sn.diag.triangleAreaM2 >= c.minTriangleAreaM2
      && (sn.status.Radio3D? ==> sn.diag.geometryScore == 1.0 && sn.diag.totalQuality >= c.minSolutionQuality)
  }

  /** Local GNSS is shown as used only when it is usable, permitted, and is the solution. */
  predicate GnssSound(s: Core) {
    s.snapshot.gnss.used ==> LocalUsable(s) && s.gnssPresent && s.snapshot.status.GnssDirect?
  }

  ghost predicate Consistent(s: Core) {
    && s.mode == s.snapshot.mode
    && LegalVerdict(s.snapshot)
    && RadioSound(s.snapshot, s.config)
    && GnssSound(s)
    && (SampleIsUsable(s.localGnss) ==> s.gnssPresent)
  }

  lemma KeptConsistent(s: Core, keeper: Core, now: uint32, outcome: SolveOutcome, elapsed: uint32)
    requires LegalVerdict(s.snapshot) && RadioSound(s.snapshot, s.config)
    requires keeper.config == s.config && keeper.localGnss == s.localGnss && keeper.gnssPresent == s.gnssPresent
    requires SampleIsUsable(s.localGnss) ==> s.gnssPresent
    ensures Consistent(Publish(keeper, Kept(s, now), now, outcome, elapsed))
  {
  }

  lemma RefusedConsistent(keeper: Core, blank: Snapshot, d: Diagnostics, reason: RejectReason, now: uint32)
    requires reason.NotEnoughAnchors? || reason.MissingLocalAltitude? || reason.BadGeometry? || reason.TrilaterationFailed?
    requires !blank.gnss.used && (SampleIsUsable(keeper.localGnss) ==> keeper.gnssPresent)
    ensures Consistent(Refused(keeper, blank, d, reason, now))
  {
  }

  lemma ScoreAtMostOne(area: real, c: Config)
    ensures GeometryScore(area, c) <= 1.0
  {
    if 0.0 < area < c.degradedTriangleAreaM2 {
      RatioBounds(area, c.degradedTriangleAreaM2);
    }
  }

  /** The selected anchors are three other nodes. */
  predicate AnchorsAreOthers(sel: Selection, local: uint8) {
    && SelectionFits(sel) && |sel.anchors| == NAV_TRILAT_ANCHOR_COUNT && Distinct(Ids(sel.anchors))
    && forall id | id in Ids(sel.anchors) :: id < NAV_MAX_NODES && id != local
  }

  lemma SelectedAreOthers(s: Core, now: uint32)
    requires |s.peers| == NAV_MAX_NODES && |SelectionAt(s, now).anchors| == NAV_TRILAT_ANCHOR_COUNT
    ensures AnchorsAreOthers(SelectionAt(s, now), s.config.localNodeId)
  {
    var sel := SelectionAt(s, now);
    forall id | id in Ids(sel.anchors)
      ensures id < NAV_MAX_NODES && id != s.config.localNodeId
    {
      var i :| 0 <= i < |sel.anchors| && Ids(sel.anchors)[i] == id;
      assert sel.anchors[i] in sel.anchors;
    }
  }

  lemma AnsweredConsistent(
    keeper: Core, s: Core, now: uint32, sel: Selection, altitude: LocalAltitude, area: real, fix: SolveReply)
    requires AnchorsAreOthers(sel, s.config.localNodeId)
    requires keeper.config == s.config && (SampleIsUsable(keeper.localGnss) ==> keeper.gnssPresent)
    requires fix.Fix? && area >= s.config.minTriangleAreaM2
    ensures Consistent(Answered(keeper, Blank(s, now), AltitudeDiag(WithSelection(CLEARED, sel), altitude, area, s.config),
                                sel.anchors, altitude.altMm, GeometryScore(area, s.config), fix, now))
  {
    assert Ids(sel.anchors) == WithSelection(CLEARED, sel).selectedIds;
    ScoreAtMostOne(area, s.config);
  }

  lemma RulingConsistent(s: Core, now: uint32, sel: Selection, ruling: Ruling)
    requires |s.peers| == NAV_MAX_NODES && SelectionFits(sel)
    requires LegalVerdict(s.snapshot) && RadioSound(s.snapshot, s.config)
    requires SampleIsUsable(s.localGnss) ==> s.gnssPresent
    requires ruling.Solved? ==>
      ruling.fix.Fix? && ruling.area >= s.config.minTriangleAreaM2 && AnchorsAreOthers(sel, s.config.localNodeId)
    ensures Consistent(Ruled(Noted(s, now, sel), s, now, sel, ruling))
  {
    var noted := Noted(s, now, sel);
    var tried := noted.(lastGeneration := s.generation);
    var d := WithSelection(CLEARED, sel);
    match ruling
    case TooFewAnchors => RefusedConsistent(noted, Blank(s, now), d, NotEnoughAnchors, now);
    case NoAltitude => RefusedConsistent(noted, Blank(s, now), d, MissingLocalAltitude, now);
    case PoorGeometry(altitude, area) =>
      RefusedConsistent(noted, Blank(s, now), AltitudeDiag(d, altitude, area, s.config), BadGeometry, now);
    case Unchanged => KeptConsistent(s, noted, now, OutcomeSkippedUnchanged, 0);
    case SolverFailed(altitude, area, _) =>
      RefusedConsistent(tried, Blank(s, now), AltitudeDiag(d, altitude, area, s.config), TrilaterationFailed, now);
    case Solved(altitude, area, _, fix) =>
      AnsweredConsistent(tried, s, now, sel, altitude, area, fix);
  }

  lemma RuledConsistent(num: Numerics, s: Core, now: uint32)
    requires |s.peers| == NAV_MAX_NODES
    requires LegalVerdict(s.snapshot) && RadioSound(s.snapshot, s.config)
    requires SampleIsUsable(s.localGnss) ==> s.gnssPresent
    ensures var sel := SelectionAt(s, now);
      Consistent(Ruled(Noted(s, now, sel), s, now, sel, Rule(num, s, now, sel)))
  {
    var sel := SelectionAt(s, now);
    if |sel.anchors| == NAV_TRILAT_ANCHOR_COUNT {
      SelectedAreOthers(s, now);
    }
    RulingConsistent(s, now, sel, Rule(num, s, now, sel));
  }

  lemma RefreshConsistent(num: Numerics, s: Core, now: uint32, allowSolve: bool)
    requires |s.peers| == NAV_MAX_NODES
    requires LegalVerdict(s.snapshot) && RadioSound(s.snapshot, s.config)
    requires SampleIsUsable(s.localGnss) ==> s.gnssPresent
    ensures Consistent(Refresh(num, s, now, allowSolve).core)
  {
    match Decide(num, s, now, allowSolve)
    case UseGnss =>
    case KeepPrevious => KeptConsistent(s, s, now, s.lastOutcome, s.lastElapsedMs);
    case KeepForCadence(elapsed) => KeptConsistent(s, s, now, OutcomeSkippedCadence, elapsed);
    case Judged(_, _) => RuledConsistent(num, s, now);
  }

  /** Storing an event touches neither the published snapshot nor the thresholds. */
  lemma AbsorbConsistent(s: Core, e: Event)
    requires Consistent(s)
    ensures var r := Bump(Absorb(s, e), Bumps(s, e));
      && LegalVerdict(r.snapshot) && RadioSound(r.snapshot, r.config)
      && (SampleIsUsable(r.localGnss) ==> r.gnssPresent)
  {
  }

  lemma StepConsistent(num: Numerics, s: Core, e: Event)
    requires |s.peers| == NAV_MAX_NODES && Consistent(s)
    ensures Consistent(Step(num, s, e).core)
  {
    if !e.EventNone? {
      AbsorbConsistent(s, e);
      RefreshConsistent(num, Bump(Absorb(s, e), Bumps(s, e)), e.now, e.Tick?);
    }
  }

  /** Whatever events arrive, the published snapshot is one of the legal ones and passed its gates. */
  lemma {:induction false} EverConsistent(num: Numerics, config: Config, events: seq<Event>)
    ensures Consistent(Run(num, Init(config), events))
  {
    if events != [] {
      EverConsistent(num, config, events[..|events| - 1]);
      StepConsistent(num, Run(num, Init(config), events[..|events| - 1]), events[|events| - 1]);
    }
  }
}
