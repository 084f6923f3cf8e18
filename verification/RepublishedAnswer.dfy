/** Which answer a skipped solve republishes: the last solver call's, unless a verdict reached without the solver has
    taken its place since. */
module RepublishedAnswer {
  import opened Words
  import opened NavTypes
  import opened AnchorSelection
  import opened NavState
  import opened CacheCoherence

  /** The snapshots agree in everything a verdict decides: they differ at most in stamp, evidence and cadence figures. */
  predicate SameAnswer(a: Snapshot, b: Snapshot) {
    && a.mode == b.mode && a.status == b.status && a.source == b.source && a.position == b.position
    && a.haccMm == b.haccMm && a.vaccMm == b.vaccMm && a.reject == b.reject && a.diag == b.diag
  }

  /** The snapshot shows a verdict reached without the solver: a local fix, or a refusal at an earlier gate. */
  predicate Superseded(sn: Snapshot) {
    || sn.source.SourceLocalGnss?
    || sn.reject.NotEnoughAnchors? || sn.reject.MissingLocalAltitude? || sn.reject.BadGeometry?
  }

  /** The snapshot published by the last solver call a history made. */
  function AfterLastCall(num: Numerics, config: Config, events: seq<Event>): Option<Snapshot> {
    if events == [] then None
    else
      var before := events[..|events| - 1];
      var o := Step(num, Run(num, Init(config), before), events[|events| - 1]);
      if o.call.Some? then Some(o.core.snapshot) else AfterLastCall(num, config, before)
  }

  /** What a snapshot shows of the solver's answer; nothing if the solver failed. */
  datatype Measured = Measured(
    latE7: int32, lonE7: int32, haccMm: uint32, rmsM: real, maxAbsM: real, residualsMm: seq<int32>)

  function MeasuredBy(reply: SolveReply): Option<Measured> {
    if reply.NoFix? then None
    else Some(Measured(
      AsInt32(Wrap32(RoundHalfAway(reply.latDeg * 10000000.0))),
      AsInt32(Wrap32(RoundHalfAway(reply.lonDeg * 10000000.0))),
      Wrap32(ToMm(Abs(reply.maxAbsM))), reply.rmsM, reply.maxAbsM, InMm(reply.residualsM)))
  }

  function MeasuredIn(sn: Snapshot): Option<Measured> {
    if sn.reject.TrilaterationFailed? then None
    else Some(Measured(sn.position.latE7, sn.position.lonE7, sn.haccMm, sn.diag.residualRmsM, sn.diag.maxResidualM,
                       sn.diag.residualsMm))
  }

  lemma GradedAnswer(placed: Snapshot, score: real, c: Config)
    requires placed.reject.NotRejected?
    ensures var sn := Graded(placed, score, c);
      !Superseded(sn) && MeasuredIn(sn) == MeasuredIn(placed)
  {
  }

  lemma PlacedAnswer(
    blank: Snapshot, d: Diagnostics, anchors: seq<Anchor>, altMm: int32, score: real, fix: SolveReply)
    requires fix.Fix?
    ensures var sn := Placed(blank, d, anchors, altMm, score, fix);
      sn.reject.NotRejected? && MeasuredIn(sn) == MeasuredBy(fix)
  {
  }

  /** What a ruling publishes: the solver's answer if it was asked, the old answer if nothing changed, else a refusal. */
  lemma RulingAnswer(num: Numerics, noted: Core, s: Core, now: uint32, sel: Selection, ruling: Ruling)
    requires SelectionFits(sel)
    requires ruling.Solved? ==> |sel.anchors| == NAV_TRILAT_ANCHOR_COUNT && ruling.fix == num.solve(ruling.input)
                                && ruling.fix.Fix?
    requires ruling.SolverFailed? ==> num.solve(ruling.input).NoFix?
    ensures var sn := Ruled(noted, s, now, sel, ruling).snapshot;
      if ruling.Solved? || ruling.SolverFailed? then
        !Superseded(sn) && MeasuredIn(sn) == MeasuredBy(num.solve(ruling.input))
      else if ruling.Unchanged? then SameAnswer(sn, s.snapshot)
      else Superseded(sn)
  {
    var blank, d := Blank(s, now), WithSelection(CLEARED, sel);
    match ruling
    case TooFewAnchors =>
    case NoAltitude =>
    case PoorGeometry(_, _) =>
    case Unchanged =>
    case SolverFailed(_, _, _) =>
    case Solved(altitude, area, _, fix) =>
      var score := GeometryScore(area, s.config);
      var shown := AltitudeDiag(d, altitude, area, s.config);
      PlacedAnswer(blank, shown, sel.anchors, altitude.altMm, score, fix);
      GradedAnswer(Placed(blank, shown, sel.anchors, altitude.altMm, score, fix), score, s.config);
  }

  lemma RefreshAnswer(num: Numerics, s: Core, now: uint32, allowSolve: bool)
    requires |s.peers| == NAV_MAX_NODES
    ensures var o := Refresh(num, s, now, allowSolve);
      if o.call.Some? then
        !Superseded(o.core.snapshot) && MeasuredIn(o.core.snapshot) == MeasuredBy(num.solve(o.call.value))
      else Superseded(o.core.snapshot) || SameAnswer(o.core.snapshot, s.snapshot)
  {
    match Decide(num, s, now, allowSolve)
    case UseGnss =>
    case KeepPrevious =>
    case KeepForCadence(_) =>
    case Judged(_, _) => JudgedAnswer(num, s, now);
  }

  lemma JudgedAnswer(num: Numerics, s: Core, now: uint32)
    requires |s.peers| == NAV_MAX_NODES
    ensures var sel := SelectionAt(s, now);
      var ruling := Rule(num, s, now, sel);
      var sn := Ruled(Noted(s, now, sel), s, now, sel, ruling).snapshot;
      if ruling.Solved? || ruling.SolverFailed? then
        !Superseded(sn) && MeasuredIn(sn) == MeasuredBy(num.solve(ruling.input))
      else Superseded(sn) || SameAnswer(sn, s.snapshot)
  {
    var sel := SelectionAt(s, now);
    RulingAnswer(num, Noted(s, now, sel), s, now, sel, Rule(num, s, now, sel));
  }

  lemma StepAnswer(num: Numerics, s: Core, e: Event)
    requires |s.peers| == NAV_MAX_NODES
    ensures var o := Step(num, s, e);
      if o.call.Some? then
        !Superseded(o.core.snapshot) && MeasuredIn(o.core.snapshot) == MeasuredBy(num.solve(o.call.value))
      else Superseded(o.core.snapshot) || SameAnswer(o.core.snapshot, s.snapshot)
  {
    if !e.EventNone? {
      RefreshAnswer(num, Bump(Absorb(s, e), Bumps(s, e)), e.now, e.Tick?);
    }
  }

  /** In every reachable state, the published answer is that of the last solver call if and only if the snapshot does
      not show a verdict reached without the solver. That call's snapshot in turn shows what the solver answered. */
  lemma {:induction false} AnswerStands(num: Numerics, config: Config, events: seq<Event>)
    ensures var after, last := AfterLastCall(num, config, events), LastCall(num, config, events);
      && (after.Some? <==> last.Some?)
      && (after.Some? ==>
            && !Superseded(after.value) && MeasuredIn(after.value) == MeasuredBy(num.solve(last.value.input))
            && var sn := Run(num, Init(config), events).snapshot;
               SameAnswer(sn, after.value) <==> !Superseded(sn))
  {
    if events != [] {
      var before, e := events[..|events| - 1], events[|events| - 1];
      AnswerStands(num, config, before);
      HistoryGrows(num, config, events);
      StepAnswer(num, Run(num, Init(config), before), e);
    }
  }

  /** A tick that skips for unchanged inputs republishes the answer shown before it. That is the last solver call's
      answer if and only if it was not superseded. */
  lemma SkipRepublishes(num: Numerics, config: Config, events: seq<Event>, now: uint32)
    requires config.localNodeId < NAV_MAX_NODES && MarksSince(num, config, events) < CYCLE
    requires Step(num, Run(num, Init(config), events), Tick(now)).core.snapshot.solve.outcome.OutcomeSkippedUnchanged?
    ensures var before := Run(num, Init(config), events).snapshot;
      var published := Step(num, Run(num, Init(config), events), Tick(now)).core.snapshot;
      var after := AfterLastCall(num, config, events);
      && after.Some? && SameAnswer(published, before)
      && (SameAnswer(published, after.value) <==> !Superseded(before))
  {
    var s := Run(num, Init(config), events);
    SkippedSolveIsRedundant(num, config, events, now);
    AnswerStands(num, config, events);
    SkipKeepsAnswer(num, s, now);
  }

  lemma SkipKeepsAnswer(num: Numerics, s: Core, now: uint32)
    requires |s.peers| == NAV_MAX_NODES
    requires Step(num, s, Tick(now)).core.snapshot.solve.outcome.OutcomeSkippedUnchanged?
    ensures SameAnswer(Step(num, s, Tick(now)).core.snapshot, s.snapshot)
  {
    var stored := Absorb(s, Tick(now));
    SkipMeansUnchanged(num, stored, now);
    SkipIsUnchangedRuling(num, stored, now);
  }

  /** So where the answer stands and the target altitude is the last call's, a skip publishes just what the solver would
      answer now. */
  lemma SkipShowsCurrentAnswer(num: Numerics, config: Config, events: seq<Event>, now: uint32)
    requires config.localNodeId < NAV_MAX_NODES && MarksSince(num, config, events) < CYCLE
    requires Step(num, Run(num, Init(config), events), Tick(now)).core.snapshot.solve.outcome.OutcomeSkippedUnchanged?
    requires !Superseded(Run(num, Init(config), events).snapshot)
    requires var s := Absorb(Run(num, Init(config), events), Tick(now));
      || config.ignoreAltitude || s.localAltitude.altMm == s.localGnss.position.altMm
      || (LastCall(num, config, events).Some? ==> LocalFresh(s, now) == LastCall(num, config, events).value.fromLocal)
    ensures var s := Absorb(Run(num, Init(config), events), Tick(now));
      && |SelectionAt(s, now).anchors| == NAV_TRILAT_ANCHOR_COUNT && ResolveAltitude(s, now).Some?
      && MeasuredIn(Step(num, Run(num, Init(config), events), Tick(now)).core.snapshot)
         == MeasuredBy(num.solve(InputFor(SelectionAt(s, now).anchors, ResolveAltitude(s, now).value.altMm,
                                          config.ignoreAltitude)))
  {
    SkippedSolveIsRedundant(num, config, events, now);
    SkipRepublishes(num, config, events, now);
    AnswerStands(num, config, events);
  }
}
