/** What the published snapshot says beside the solution: the receiver, the cadence, the selection; and that the
    stored inputs are the last ones received. */
module SnapshotContents {
  import opened Words
  import opened NavTypes
  import opened AnchorSelection
  import opened NavState
  import CacheCoherence

  // ---- inputs -----------------------------------------------------------

  /** The last GNSS sample of a history. */
  function LastSample(events: seq<Event>): Option<GnssSample> {
    if events == [] then None
    else if events[|events| - 1].GnssEvent? then Some(events[|events| - 1].sample)
    else LastSample(events[..|events| - 1])
  }

  function LastAltitude(events: seq<Event>): Option<LocalAltitude> {
    if events == [] then None
    else if events[|events| - 1].AltitudeEvent? then Some(events[|events| - 1].altitude)
    else LastAltitude(events[..|events| - 1])
  }

  /** The time of the last tick, zero before the first. */
  function LastTick(events: seq<Event>): uint32 {
    if events == [] then 0
    else if events[|events| - 1].Tick? then events[|events| - 1].now
    else LastTick(events[..|events| - 1])
  }

  /** What an event makes of denial. */
  function DenialAfter(e: Event, denied: bool): bool {
    if e.ConfigEvent? && e.command.CmdForceDenied? then e.command.enabled
    else !(e.ConfigEvent? && e.command.CmdUseGnss?) && denied
  }

  /** Whether the last command that says so denies GNSS. */
  function DeniedBy(events: seq<Event>, initially: bool): bool {
    if events == [] then initially
    else DenialAfter(events[|events| - 1], DeniedBy(events[..|events| - 1], initially))
  }

  lemma RefreshKeepsTick(num: Numerics, s: Core, now: uint32, allowSolve: bool)
    requires |s.peers| == NAV_MAX_NODES
    ensures Refresh(num, s, now, allowSolve).core.lastTickMs == s.lastTickMs
  {
    var v := Decide(num, s, now, allowSolve);
    if v.Judged? {
      RuledKeepsTick(Noted(s, now, v.sel), s, now, v.sel, v.ruling);
    }
  }

  lemma RuledKeepsTick(noted: Core, s: Core, now: uint32, sel: Selection, ruling: Ruling)
    requires SelectionFits(sel)
    requires ruling.Solved? ==> ruling.fix.Fix? && |sel.anchors| == NAV_TRILAT_ANCHOR_COUNT
    ensures Ruled(noted, s, now, sel, ruling).lastTickMs == noted.lastTickMs
  {
  }

  lemma StoredInputs(num: Numerics, s: Core, e: Event)
    requires |s.peers| == NAV_MAX_NODES
    ensures var r, stored := Step(num, s, e).core, Absorb(s, e);
      && r.localGnss == stored.localGnss && r.gnssPresent == stored.gnssPresent
      && r.localAltitude == stored.localAltitude && r.altitudePresent == stored.altitudePresent
      && r.config == stored.config && r.lastTickMs == stored.lastTickMs
  {
    if !e.EventNone? {
      CacheCoherence.RefreshKeeps(num, Bump(Absorb(s, e), Bumps(s, e)), e.now, e.Tick?);
      RefreshKeepsTick(num, Bump(Absorb(s, e), Bumps(s, e)), e.now, e.Tick?);
    }
  }

  predicate SampleHeld(s: Core, last: Option<GnssSample>) {
    s.gnssPresent == last.Some? && (s.gnssPresent ==> s.localGnss == last.value)
  }

  predicate AltitudeHeld(s: Core, last: Option<LocalAltitude>) {
    s.altitudePresent == last.Some? && (s.altitudePresent ==> s.localAltitude == last.value)
  }

  lemma SampleStep(num: Numerics, s: Core, e: Event, last: Option<GnssSample>)
    requires |s.peers| == NAV_MAX_NODES && SampleHeld(s, last)
    ensures SampleHeld(Step(num, s, e).core, if e.GnssEvent? then Some(e.sample) else last)
  {
    StoredInputs(num, s, e);
  }

  lemma AltitudeStep(num: Numerics, s: Core, e: Event, last: Option<LocalAltitude>)
    requires |s.peers| == NAV_MAX_NODES && AltitudeHeld(s, last)
    ensures AltitudeHeld(Step(num, s, e).core, if e.AltitudeEvent? then Some(e.altitude) else last)
  {
    StoredInputs(num, s, e);
  }

  lemma TickStep(num: Numerics, s: Core, e: Event)
    requires |s.peers| == NAV_MAX_NODES
    ensures Step(num, s, e).core.lastTickMs == if e.Tick? then e.now else s.lastTickMs
  {
    StoredInputs(num, s, e);
  }

  lemma DenialStep(num: Numerics, s: Core, e: Event, config: Config)
    requires |s.peers| == NAV_MAX_NODES && s.config == config.(forceDenied := s.config.forceDenied)
    ensures Step(num, s, e).core.config == config.(forceDenied := DenialAfter(e, s.config.forceDenied))
  {
    StoredInputs(num, s, e);
    DenialStored(s, e);
  }

  lemma {:induction false} SampleIsLast(num: Numerics, config: Config, events: seq<Event>)
    ensures SampleHeld(Run(num, Init(config), events), LastSample(events))
  {
    if events != [] {
      var k := |events| - 1;
      SampleIsLast(num, config, events[..k]);
      SampleStep(num, Run(num, Init(config), events[..k]), events[k], LastSample(events[..k]));
    }
  }

  lemma {:induction false} AltitudeIsLast(num: Numerics, config: Config, events: seq<Event>)
    ensures AltitudeHeld(Run(num, Init(config), events), LastAltitude(events))
  {
    if events != [] {
      var k := |events| - 1;
      AltitudeIsLast(num, config, events[..k]);
      AltitudeStep(num, Run(num, Init(config), events[..k]), events[k], LastAltitude(events[..k]));
    }
  }

  lemma {:induction false} TickIsLast(num: Numerics, config: Config, events: seq<Event>)
    ensures Run(num, Init(config), events).lastTickMs == LastTick(events)
  {
    if events != [] {
      var k := |events| - 1;
      TickIsLast(num, config, events[..k]);
      TickStep(num, Run(num, Init(config), events[..k]), events[k]);
    }
  }

  lemma {:induction false} DenialIsLast(num: Numerics, config: Config, events: seq<Event>)
    ensures Run(num, Init(config), events).config == config.(forceDenied := DeniedBy(events, config.forceDenied))
  {
    if events != [] {
      var k := |events| - 1;
      DenialIsLast(num, config, events[..k]);
      DenialStep(num, Run(num, Init(config), events[..k]), events[k], config);
    }
  }

  lemma DenialStored(s: Core, e: Event)
    ensures Absorb(s, e).config == s.config.(forceDenied := DenialAfter(e, s.config.forceDenied))
  {
    if e.ConfigEvent? {
      match e.command
      case CmdForceDenied(_) =>
      case CmdUseGnss =>
      case CmdNone =>
    }
  }

  /** In every reachable state the stored sample, altitude, denial and tick time are the last ones received. */
  lemma InputsAreLast(num: Numerics, config: Config, events: seq<Event>)
    ensures var s := Run(num, Init(config), events);
      && SampleHeld(s, LastSample(events)) && AltitudeHeld(s, LastAltitude(events)) && s.lastTickMs == LastTick(events)
      && s.config == config.(forceDenied := DeniedBy(events, config.forceDenied))
  {
    SampleIsLast(num, config, events);
    AltitudeIsLast(num, config, events);
    TickIsLast(num, config, events);
    DenialIsLast(num, config, events);
  }

  // ---- the receiver and the cadence -------------------------------------

  predicate FixUsable(s: Core) {
    s.localGnss.valid && s.localGnss.fixType >= NAV_GNSS_FIX_3D && !s.config.forceDenied
  }

  /** The receiver as the snapshot shows it at `now`. */
  predicate ShowsReceiver(s: Core, now: uint32) {
    var g, shown := s.localGnss, s.snapshot.gnss;
    && shown.present == s.gnssPresent && (shown.used <==> FixUsable(s))
    && (s.gnssPresent ==>
          && (shown.valid <==> g.valid && g.fixType >= NAV_GNSS_FIX_3D)
          && shown.ageMs == Wrap32(now - g.timestampMs) && shown.fixType == g.fixType
          && shown.satellites == g.satellites && shown.hdopCenti == g.hdopCenti
          && shown.haccMm == g.haccMm && shown.vaccMm == g.vaccMm && shown.position == g.position)
    && (!s.gnssPresent ==> !shown.valid && shown.ageMs == 0 && shown.position == Position(0, 0, 0))
  }

  predicate ShowsCadence(s: Core, now: uint32) {
    var shown := s.snapshot.solve;
    && shown.outcome == s.lastOutcome && shown.elapsedMs == s.lastElapsedMs
    && shown.intervalMs == s.config.solveIntervalMs
    && shown.generation == s.generation && shown.lastGeneration == s.lastGeneration
    && shown.ageMs == (if s.solveRan then Wrap32(now - s.lastSolveMs) else 0)
  }

  lemma RuledShows(noted: Core, s: Core, now: uint32, sel: Selection, ruling: Ruling)
    requires SelectionFits(sel) && noted.localGnss == s.localGnss && noted.gnssPresent == s.gnssPresent
    requires noted.config == s.config && !FixUsable(s)
    requires ruling.Solved? ==> ruling.fix.Fix? && |sel.anchors| == NAV_TRILAT_ANCHOR_COUNT
    ensures var r := Ruled(noted, s, now, sel, ruling);
      && ShowsReceiver(r, now) && ShowsCadence(r, now) && r.snapshot.timeMs == now
      && r.snapshot.nodeId == s.config.localNodeId
  {
    match ruling
    case TooFewAnchors =>
    case NoAltitude =>
    case PoorGeometry(_, _) =>
    case Unchanged =>
    case SolverFailed(_, _, _) =>
    case Solved(_, _, _, _) =>
  }

  lemma RefreshShows(num: Numerics, s: Core, now: uint32, allowSolve: bool)
    requires |s.peers| == NAV_MAX_NODES
    ensures var r := Refresh(num, s, now, allowSolve).core;
      && ShowsReceiver(r, now) && ShowsCadence(r, now) && r.snapshot.timeMs == now
      && r.snapshot.nodeId == s.config.localNodeId
  {
    match Decide(num, s, now, allowSolve)
    case UseGnss =>
    case KeepPrevious =>
    case KeepForCadence(_) =>
    case Judged(sel, ruling) => RuledShows(Noted(s, now, sel), s, now, sel, ruling);
  }

  /** After every event the snapshot is stamped with it, and shows the receiver and the cadence as they are then. */
  lemma EvidenceIsCurrent(num: Numerics, s: Core, e: Event)
    requires |s.peers| == NAV_MAX_NODES && !e.EventNone?
    ensures var r := Step(num, s, e).core;
      && ShowsReceiver(r, e.now) && ShowsCadence(r, e.now) && r.snapshot.timeMs == e.now
      && r.snapshot.nodeId == r.config.localNodeId
  {
    RefreshShows(num, Bump(Absorb(s, e), Bumps(s, e)), e.now, e.Tick?);
    StoredInputs(num, s, e);
  }

  /** A skip for cadence tells how long ago the last pass was, and that this is less than the interval. */
  lemma CadenceSkipTells(num: Numerics, s: Core, now: uint32)
    requires |s.peers| == NAV_MAX_NODES && Refresh(num, s, now, true).core.snapshot.solve.outcome.OutcomeSkippedCadence?
    ensures var shown := Refresh(num, s, now, true).core.snapshot.solve;
      shown.elapsedMs == Wrap32(now - s.lastSolveMs) == shown.ageMs < s.config.solveIntervalMs
  {
    if Decide(num, s, now, true).Judged? {
      CacheCoherence.RulingFacts(num, s, now);
      JudgedNeverSkipsForCadence(num, s, now);
    }
  }

  lemma JudgedNeverSkipsForCadence(num: Numerics, s: Core, now: uint32)
    requires |s.peers| == NAV_MAX_NODES && Decide(num, s, now, true).Judged?
    ensures !Refresh(num, s, now, true).core.snapshot.solve.outcome.OutcomeSkippedCadence?
  {
    var v := Decide(num, s, now, true);
    RulingOutcome(Noted(s, now, v.sel), s, now, v.sel, v.ruling);
  }

  lemma RulingOutcome(noted: Core, s: Core, now: uint32, sel: Selection, ruling: Ruling)
    requires SelectionFits(sel)
    requires ruling.Solved? ==> ruling.fix.Fix? && |sel.anchors| == NAV_TRILAT_ANCHOR_COUNT
    ensures !Ruled(noted, s, now, sel, ruling).snapshot.solve.outcome.OutcomeSkippedCadence?
  {
  }

  // ---- a local fix ------------------------------------------------------

  /** While the local fix is usable and permitted, every refresh publishes it as it was received. */
  lemma FixIsPublished(num: Numerics, s: Core, now: uint32, allowSolve: bool)
    requires |s.peers| == NAV_MAX_NODES && FixUsable(s)
    ensures var sn, g := Refresh(num, s, now, allowSolve).core.snapshot, s.localGnss;
      && sn.mode.GnssOk? && sn.status.GnssDirect? && sn.source.SourceLocalGnss? && sn.reject.NotRejected?
      && sn.position == g.position && sn.haccMm == g.haccMm && sn.vaccMm == g.vaccMm
      && sn.diag.totalQuality == 1.0 && sn.diag.altitudeValid && sn.diag.altitudeSource.AltGnss?
      && sn.diag.numAnchors == 0 && sn.solve.outcome.OutcomeGnssDirect?
  {
  }

  // ---- the altitude -----------------------------------------------------

  predicate InTime(stamp: uint32, now: uint32, ttl: uint32) {
    ttl == 0 || Wrap32(now - stamp) <= ttl
  }

  /** The local altitude can be used: valid, of a known source, and not too old. */
  predicate LocalServes(s: Core, now: uint32) {
    && s.altitudePresent && s.localAltitude.valid && s.localAltitude.source != AltNone
    && InTime(s.localAltitude.timestampMs, now, s.config.localAltitudeTtlMs)
  }

  /** GNSS altitude can be used: permitted, from a usable sample, and not too old. */
  predicate GnssServes(s: Core, now: uint32) {
    && (s.config.forceDenied ==> s.config.allowGnssAltitudeWhenDenied)
    && s.gnssPresent && s.localGnss.valid && s.localGnss.fixType >= NAV_GNSS_FIX_3D
    && InTime(s.localGnss.timestampMs, now, s.config.localAltitudeTtlMs)
  }

  /** A solve uses the local altitude where it can be used, else the GNSS altitude where that can, else none. */
  lemma AltitudeChosen(s: Core, now: uint32)
    ensures var a := ResolveAltitude(s, now);
      && (a.None? <==> !LocalServes(s, now) && !GnssServes(s, now))
      && (LocalServes(s, now) ==> a == Some(s.localAltitude))
      && (!LocalServes(s, now) && GnssServes(s, now) ==>
            a == Some(LocalAltitude(s.localGnss.position.altMm, s.localGnss.timestampMs, AltGnss, true)))
  {
  }

  /** Every solver call solves for, publishes and names an altitude that could be used at that time. */
  lemma CallUsesServingAltitude(num: Numerics, s: Core, now: uint32, allowSolve: bool)
    requires |s.peers| == NAV_MAX_NODES && Refresh(num, s, now, allowSolve).call.Some?
    ensures var sn := Refresh(num, s, now, allowSolve).core.snapshot;
      var altMm := if LocalServes(s, now) then s.localAltitude.altMm else s.localGnss.position.altMm;
      && (LocalServes(s, now) || GnssServes(s, now))
      && sn.diag.altitudeSource == (if LocalServes(s, now) then s.localAltitude.source else AltGnss)
      && (!s.config.ignoreAltitude ==>
            Refresh(num, s, now, allowSolve).call.value.targetAltM == altMm as real / 1000.0)
  {
    var sel := SelectionAt(s, now);
    var ruling := Rule(num, s, now, sel);
    AltitudeChosen(s, now);
    RuleAltitude(num, s, now, sel);
    CallAltitude(Noted(s, now, sel), s, now, sel, ruling);
  }

  lemma RuleAltitude(num: Numerics, s: Core, now: uint32, sel: Selection)
    ensures var ruling := Rule(num, s, now, sel);
      ruling.Solved? || ruling.SolverFailed? ==>
        && ResolveAltitude(s, now) == Some(ruling.altitude)
        && ruling.input.targetAltM
           == (if s.config.ignoreAltitude then 0.0 else ruling.altitude.altMm as real / 1000.0)
  {
  }

  lemma CallAltitude(noted: Core, s: Core, now: uint32, sel: Selection, ruling: Ruling)
    requires SelectionFits(sel) && (ruling.Solved? || ruling.SolverFailed?)
    requires ruling.Solved? ==> ruling.fix.Fix? && |sel.anchors| == NAV_TRILAT_ANCHOR_COUNT
    ensures Ruled(noted, s, now, sel, ruling).snapshot.diag.altitudeSource == ruling.altitude.source
  {
  }

  // ---- the selection ----------------------------------------------------

  /** The snapshot lists the anchors kept and the nodes turned down, with their reasons. */
  predicate ListsSelection(d: Diagnostics, sel: Selection)
    requires SelectionFits(sel)
  {
    && d.numAnchors == |sel.anchors| && d.rejectedCount == |sel.rejectedIds|
    && |d.selectedIds| == NAV_TRILAT_ANCHOR_COUNT && |d.rejectedIds| == |d.rejectedReasons| == NAV_MAX_NODES
    && (forall i :: 0 <= i < |sel.anchors| ==> d.selectedIds[i] == sel.anchors[i].nodeId)
    && (forall i :: 0 <= i < |sel.rejectedIds| ==>
          d.rejectedIds[i] == sel.rejectedIds[i] && d.rejectedReasons[i] == sel.rejectedReasons[i])
    && (forall i :: |sel.anchors| <= i < NAV_TRILAT_ANCHOR_COUNT ==> d.selectedIds[i] == NAV_INVALID_NODE_ID)
    && (forall i :: |sel.rejectedIds| <= i < NAV_MAX_NODES ==> d.rejectedIds[i] == NAV_INVALID_NODE_ID)
  }

  lemma RulingLists(noted: Core, s: Core, now: uint32, sel: Selection, ruling: Ruling)
    requires SelectionFits(sel) && !ruling.Unchanged?
    requires ruling.Solved? ==> ruling.fix.Fix? && |sel.anchors| == NAV_TRILAT_ANCHOR_COUNT
    ensures ListsSelection(Ruled(noted, s, now, sel, ruling).snapshot.diag, sel)
  {
    var d := WithSelection(CLEARED, sel);
    assert ListsSelection(d, sel);
    match ruling
    case TooFewAnchors =>
    case NoAltitude =>
    case PoorGeometry(_, _) =>
    case SolverFailed(_, _, _) =>
    case Solved(_, _, _, _) =>
  }

  /** What a refusal names: the first gate that fails, and the altitude and area if it got that far. */
  lemma RefusalNamesGate(num: Numerics, s: Core, now: uint32)
    requires |s.peers| == NAV_MAX_NODES
    ensures var sel := SelectionAt(s, now);
      var sn := Ruled(Noted(s, now, sel), s, now, sel, Rule(num, s, now, sel)).snapshot;
      && (|sel.anchors| < NAV_TRILAT_ANCHOR_COUNT ==>
            sn.status.Rejected? && sn.reject.NotEnoughAnchors? && sn.position == Position(0, 0, 0))
      && (|sel.anchors| == NAV_TRILAT_ANCHOR_COUNT && ResolveAltitude(s, now).None? ==>
            sn.status.Rejected? && sn.reject.MissingLocalAltitude? && sn.position == Position(0, 0, 0)
            && !sn.diag.altitudeValid)
      && (|sel.anchors| == NAV_TRILAT_ANCHOR_COUNT && ResolveAltitude(s, now).Some?
          && num.area(sel.anchors) < s.config.minTriangleAreaM2 ==>
            sn.status.Rejected? && sn.reject.BadGeometry? && sn.position == Position(0, 0, 0) && sn.diag.altitudeValid
            && sn.diag.altitudeSource == ResolveAltitude(s, now).value.source
            && sn.diag.triangleAreaM2 == num.area(sel.anchors))
  {
  }
}
