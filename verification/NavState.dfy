/** The state of the navigation core as a value, and what one event does to it. */
module NavState {
  import opened Words
  import opened NavTypes
  import opened PeerTable
  import opened AnchorSelection

  datatype Config = Config(
    localNodeId: uint8,
    telemetryTtlMs: uint32,
    rangeTtlMs: uint32,
    localAltitudeTtlMs: uint32,
    solveIntervalMs: uint32,
    maxRangeSigmaMm: uint32,
    minAnchorQuality: real,
    minSolutionQuality: real,
    maxResidualRmsM: real,
    maxResidualM: real,
    minTriangleAreaM2: real,
    degradedTriangleAreaM2: real,
    forceDenied: bool,
    allowGnssAltitudeWhenDenied: bool,
    ignoreAltitude: bool,
    retainLastRange: bool)

  function LimitsOf(c: Config): Limits {
    Limits(c.localNodeId, c.telemetryTtlMs, c.rangeTtlMs, c.maxRangeSigmaMm, c.minAnchorQuality)
  }

  datatype TrilatAnchor = TrilatAnchor(latDeg: real, lonDeg: real, altM: real, distanceM: real, nodeId: uint8)

  /** Everything the trilateration solver is given. */
  datatype SolveInput = SolveInput(anchors: seq<TrilatAnchor>, targetAltM: real)

  datatype SolverReply =
    | NoFix
    | Fix(latDeg: real, lonDeg: real, rmsM: real, maxAbsM: real, residualsM: seq<real>)

  type SolveReply = r: SolverReply | r.Fix? ==> |r.residualsM| == NAV_TRILAT_ANCHOR_COUNT witness NoFix

  /** The numeric routines the core calls, as arbitrary deterministic functions of their inputs. */
  datatype Numerics = Numerics(area: seq<Anchor> -> real, solve: SolveInput -> SolveReply)

  datatype Diagnostics = Diagnostics(
    numAnchors: nat,
    selectedIds: seq<uint8>,
    residualsMm: seq<int32>,
    rejectedIds: seq<uint8>,
    rejectedReasons: seq<RejectReason>,
    rejectedCount: nat,
    residualRmsM: real,
    maxResidualM: real,
    geometryScore: real,
    triangleAreaM2: real,
    totalQuality: real,
    altitudeSource: AltitudeSource,
    altitudeValid: bool)

  datatype GnssEvidence = GnssEvidence(
    present: bool, valid: bool, used: bool, ageMs: uint32, fixType: uint8, satellites: uint8,
    hdopCenti: uint16, haccMm: uint32, vaccMm: uint32, position: Position)

  datatype SolveInfo = SolveInfo(
    outcome: SolveOutcome, ageMs: uint32, elapsedMs: uint32, intervalMs: uint32,
    generation: uint32, lastGeneration: uint32)

  datatype Snapshot = Snapshot(
    nodeId: uint8,
    timeMs: uint32,
    mode: NavMode,
    status: SolutionStatus,
    source: SolutionSource,
    position: Position,
    haccMm: uint32,
    vaccMm: uint32,
    reject: RejectReason,
    diag: Diagnostics,
    gnss: GnssEvidence,
    solve: SolveInfo)

  datatype Core = Core(
    config: Config,
    peers: seq<PeerState>,
    localGnss: GnssSample,
    localAltitude: LocalAltitude,
    gnssPresent: bool,
    altitudePresent: bool,
    mode: NavMode,
    snapshot: Snapshot,
    lastTickMs: uint32,
    solveRan: bool,
    lastSolveMs: uint32,
    generation: uint32,
    lastGeneration: uint32,
    lastOutcome: SolveOutcome,
    lastElapsedMs: uint32)

  function Padded<T>(xs: seq<T>, n: nat, fill: T): (r: seq<T>)
    requires |xs| <= n
    ensures |r| == n
  {
    xs + seq(n - |xs|, _ => fill)
  }

  const CLEARED: Diagnostics :=
    Diagnostics(0, Padded([], NAV_TRILAT_ANCHOR_COUNT, NAV_INVALID_NODE_ID), Padded([], NAV_TRILAT_ANCHOR_COUNT, 0),
                Padded([], NAV_MAX_NODES, NAV_INVALID_NODE_ID), Padded([], NAV_MAX_NODES, NotRejected), 0,
                0.0, 0.0, 0.0, 0.0, 0.0, AltNone, false)

  const NO_EVIDENCE := GnssEvidence(false, false, false, 0, NAV_GNSS_FIX_NONE, 0, 0, 0, 0, ZERO_POSITION)

  function Init(config: Config): Core {
    var snapshot := Snapshot(config.localNodeId, 0, Boot, NoSolution, SourceNone, ZERO_POSITION, 0, 0, NotRejected,
                             CLEARED, NO_EVIDENCE, SolveInfo(OutcomeNone, 0, 0, 0, 0, 0));
    Core(config, EmptyTable(NAV_MAX_NODES), ZERO_SAMPLE, LocalAltitude(0, 0, AltNone, false), false, false,
         Boot, snapshot, 0, false, 0, 0, 0, OutcomeNone, 0)
  }

  datatype ConfigCommand = CmdNone | CmdForceDenied(enabled: bool) | CmdUseGnss

  datatype Event =
    | EventNone(now: uint32)
    | Tick(now: uint32)
    | GnssEvent(now: uint32, sample: GnssSample)
    | AltitudeEvent(now: uint32, altitude: LocalAltitude)
    | BeaconEvent(now: uint32, beacon: PeerBeacon)
    | RangeEvent(now: uint32, range: RangeResult)
    | RangeFailEvent(now: uint32, failure: RangeFailure)
    | ConfigEvent(now: uint32, command: ConfigCommand)

  /** The input-change counter: it wraps past zero, which means "nothing received yet". */
  function NextGeneration(g: uint32): uint32 {
    var n := Wrap32(g + 1);
    if n == 0 then 1 else n
  }

  function Evidence(s: Core, now: uint32): GnssEvidence {
    if !s.gnssPresent then NO_EVIDENCE
    else
      var g := s.localGnss;
      GnssEvidence(true, SampleIsUsable(g), false, Since(now, g.timestampMs), g.fixType, g.satellites,
                   g.hdopCenti, g.haccMm, g.vaccMm, g.position)
  }

  predicate LocalUsable(s: Core) {
    SampleIsUsable(s.localGnss) && !s.config.forceDenied
  }

  predicate AltitudeFresh(a: LocalAltitude, now: uint32, ttl: uint32) {
    a.valid && !a.source.AltNone? && (ttl == 0 || Since(now, a.timestampMs) <= ttl)
  }

  /** The altitude a solve at `now` would use: the fresh local one, else GNSS altitude where that is allowed. */
  function ResolveAltitude(s: Core, now: uint32): Option<LocalAltitude> {
    if s.altitudePresent && AltitudeFresh(s.localAltitude, now, s.config.localAltitudeTtlMs) then Some(s.localAltitude)
    else
      var allowed := !s.config.forceDenied || s.config.allowGnssAltitudeWhenDenied;
      var g := s.localGnss;
      if allowed && s.gnssPresent && SampleIsUsable(g)
         && (s.config.localAltitudeTtlMs == 0 || Since(now, g.timestampMs) <= s.config.localAltitudeTtlMs)
      then Some(LocalAltitude(g.position.altMm, g.timestampMs, AltGnss, true))
      else None
  }

  function GeometryScore(area: real, c: Config): real {
    if c.degradedTriangleAreaM2 <= 0.0 || area >= c.degradedTriangleAreaM2 then 1.0
    else if area <= 0.0 then 0.0
    else area / c.degradedTriangleAreaM2
  }

  function ToTrilat(a: Anchor, ignoreAltitude: bool): TrilatAnchor {
    TrilatAnchor(a.latE7 as real / 10000000.0, a.lonE7 as real / 10000000.0,
                 if ignoreAltitude then 0.0 else a.altMm as real / 1000.0,
                 a.rangeMm as real / 1000.0, a.nodeId)
  }

  /** The solver input for these anchors and this altitude. */
  function InputFor(anchors: seq<Anchor>, altMm: int32, ignoreAltitude: bool): SolveInput {
    SolveInput(seq(|anchors|, i requires 0 <= i < |anchors| => ToTrilat(anchors[i], ignoreAltitude)),
               if ignoreAltitude then 0.0 else altMm as real / 1000.0)
  }

  predicate SelectionFits(sel: Selection) {
    |sel.anchors| <= NAV_TRILAT_ANCHOR_COUNT && |sel.rejectedIds| == |sel.rejectedReasons| <= NAV_MAX_NODES
  }

  /** The selection made at `now` over the whole peer table. */
  function SelectionAt(s: Core, now: uint32): (sel: Selection)
    requires |s.peers| == NAV_MAX_NODES
    ensures SelectionFits(sel)
    ensures IsTopSelection(sel, Candidates(s.peers, now, LimitsOf(s.config)), |s.peers|, NAV_TRILAT_ANCHOR_COUNT,
                           s.config.localNodeId)
  {
    var cands := Candidates(s.peers, now, LimitsOf(s.config));
    SelectIsTop(cands, |cands|, NAV_TRILAT_ANCHOR_COUNT, s.config.localNodeId);
    Select(cands, |cands|, NAV_TRILAT_ANCHOR_COUNT, s.config.localNodeId)
  }

  /** What the gated pipeline decides about the current inputs. */
  datatype Ruling =
    | TooFewAnchors
    | NoAltitude
    | PoorGeometry(altitude: LocalAltitude, area: real)
    | Unchanged
    | SolverFailed(altitude: LocalAltitude, area: real, input: SolveInput)
    | Solved(altitude: LocalAltitude, area: real, input: SolveInput, fix: SolveReply)

  datatype Verdict =
    | UseGnss
    | KeepPrevious
    | KeepForCadence(elapsed: uint32)
    | Judged(sel: Selection, ruling: Ruling)

  function Rule(num: Numerics, s: Core, now: uint32, sel: Selection): (r: Ruling)
    ensures r.Solved? ==> r.fix.Fix?
  {
    if |sel.anchors| < NAV_TRILAT_ANCHOR_COUNT then TooFewAnchors
    else
      match ResolveAltitude(s, now)
      case None => NoAltitude
      case Some(altitude) =>
        var area := num.area(sel.anchors);
        if area < s.config.minTriangleAreaM2 then PoorGeometry(altitude, area)
        else if s.generation == s.lastGeneration then Unchanged
        else
          var input := InputFor(sel.anchors, altitude.altMm, s.config.ignoreAltitude);
          var fix := num.solve(input);
          if fix.NoFix? then SolverFailed(altitude, area, input) else Solved(altitude, area, input, fix)
  }

  /** How the snapshot is refreshed at `now`; only ticks may solve. */
  function Decide(num: Numerics, s: Core, now: uint32, allowSolve: bool): Verdict
    requires |s.peers| == NAV_MAX_NODES
  {
    if LocalUsable(s) then UseGnss
    else if !allowSolve then KeepPrevious
    else
      var elapsed := Since(now, s.lastSolveMs);
      if s.solveRan && s.config.solveIntervalMs > 0 && elapsed < s.config.solveIntervalMs
      then KeepForCadence(elapsed)
      else var sel := SelectionAt(s, now); Judged(sel, Rule(num, s, now, sel))
  }

  function CallOf(v: Verdict): Option<SolveInput> {
    if v.Judged? && (v.ruling.SolverFailed? || v.ruling.Solved?) then Some(v.ruling.input) else None
  }

  function ToMm(metres: real): int {
    RoundHalfAway(metres * 1000.0)
  }

  function InMm(metres: seq<real>): (mm: seq<int32>)
    ensures |mm| == |metres|
    ensures forall i :: 0 <= i < |mm| ==> mm[i] == AsInt32(Wrap32(ToMm(metres[i])))
  {
    seq(|metres|, i requires 0 <= i < |metres| => AsInt32(Wrap32(ToMm(metres[i]))))
  }

  function MeanQuality(anchors: seq<Anchor>): real {
    if anchors == [] then 0.0
    else MeanQuality(anchors[..|anchors| - 1])
         + anchors[|anchors| - 1].quality / (NAV_TRILAT_ANCHOR_COUNT as real)
  }

  /** Diagnostics showing this selection. */
  function WithSelection(d: Diagnostics, sel: Selection): Diagnostics
    requires SelectionFits(sel)
  {
    d.(numAnchors := |sel.anchors|, rejectedCount := |sel.rejectedIds|,
       selectedIds := Padded(Ids(sel.anchors), NAV_TRILAT_ANCHOR_COUNT, NAV_INVALID_NODE_ID),
       rejectedIds := Padded(sel.rejectedIds, NAV_MAX_NODES, NAV_INVALID_NODE_ID),
       rejectedReasons := Padded(sel.rejectedReasons, NAV_MAX_NODES, NotRejected))
  }

  /** The fixed arrays hold nothing past this selection's entries. */
  ghost predicate ReadyFor(d: Diagnostics, sel: Selection)
    requires SelectionFits(sel)
  {
    && |d.selectedIds| == NAV_TRILAT_ANCHOR_COUNT && |d.rejectedIds| == |d.rejectedReasons| == NAV_MAX_NODES
    && (forall i :: |sel.anchors| <= i < NAV_TRILAT_ANCHOR_COUNT ==> d.selectedIds[i] == NAV_INVALID_NODE_ID)
    && (forall i :: |sel.rejectedIds| <= i < NAV_MAX_NODES ==>
          d.rejectedIds[i] == NAV_INVALID_NODE_ID && d.rejectedReasons[i] == NotRejected)
  }

  /** The peers' diagnostic fields after a selection: reset, then marked as selected or rejected. */
  function ResetDiagnostics(peers: seq<PeerState>): (r: seq<PeerState>)
    ensures |r| == |peers|
  {
    seq(|peers|, i requires 0 <= i < |peers| =>
      if peers[i].present then peers[i].(anchorQuality := 0.0, lastReject := NotRejected) else peers[i])
  }

  function NoteOne(peers: seq<PeerState>, id: uint8, quality: real, reason: RejectReason): (r: seq<PeerState>)
    ensures |r| == |peers|
  {
    if id < |peers| && peers[id].present
    then peers[id := peers[id].(anchorQuality := quality, lastReject := reason)] else peers
  }

  function NoteAnchors(peers: seq<PeerState>, anchors: seq<Anchor>): (r: seq<PeerState>)
    ensures |r| == |peers|
  {
    if anchors == [] then peers
    else
      var a := anchors[|anchors| - 1];
      NoteOne(NoteAnchors(peers, anchors[..|anchors| - 1]), a.nodeId, a.quality, NotRejected)
  }

  function NoteRejected(peers: seq<PeerState>, ids: seq<uint8>, reasons: seq<RejectReason>): (r: seq<PeerState>)
    requires |ids| == |reasons|
    ensures |r| == |peers|
  {
    if ids == [] then peers
    else NoteOne(NoteRejected(peers, ids[..|ids| - 1], reasons[..|ids| - 1]),
                 ids[|ids| - 1], 0.0, reasons[|ids| - 1])
  }

  function NoteSelection(peers: seq<PeerState>, sel: Selection): (r: seq<PeerState>)
    requires |sel.rejectedIds| == |sel.rejectedReasons|
    ensures |r| == |peers|
  {
    NoteRejected(NoteAnchors(ResetDiagnostics(peers), sel.anchors), sel.rejectedIds, sel.rejectedReasons)
  }

  function NoteResiduals(peers: seq<PeerState>, anchors: seq<Anchor>, residuals: seq<real>): (r: seq<PeerState>)
    requires |anchors| == |residuals|
    ensures |r| == |peers|
  {
    if anchors == [] then peers
    else
      var k := |anchors| - 1;
      var before := NoteResiduals(peers, anchors[..k], residuals[..k]);
      var id := anchors[k].nodeId;
      if id < |before| && before[id].present then before[id := before[id].(lastResidualM := residuals[k])] else before
  }

  function InfoFor(s: Core, now: uint32, outcome: SolveOutcome, elapsed: uint32): SolveInfo {
    SolveInfo(outcome, if s.solveRan then Since(now, s.lastSolveMs) else 0, elapsed, s.config.solveIntervalMs,
              s.generation, s.lastGeneration)
  }

  /** Recording the outcome of a refresh. */
  function Report(s: Core, now: uint32, outcome: SolveOutcome, elapsed: uint32): Core {
    s.(lastOutcome := outcome, lastElapsedMs := elapsed,
       snapshot := s.snapshot.(solve := InfoFor(s, now, outcome, elapsed)))
  }

  /** Publishing a snapshot together with its solve diagnostics. */
  function Publish(s: Core, snapshot: Snapshot, now: uint32, outcome: SolveOutcome, elapsed: uint32): Core {
    Report(s.(snapshot := snapshot, mode := snapshot.mode), now, outcome, elapsed)
  }

  /** The snapshot every refresh starts from: stamped, evidence renewed, diagnostics and source cleared. */
  function Blank(s: Core, now: uint32): Snapshot {
    s.snapshot.(timeMs := now, nodeId := s.config.localNodeId, source := SourceNone, diag := CLEARED,
                gnss := Evidence(s, now))
  }

  function Kept(s: Core, now: uint32): Snapshot {
    s.snapshot.(timeMs := now, nodeId := s.config.localNodeId, gnss := Evidence(s, now))
  }

  function RejectedAs(snapshot: Snapshot, reason: RejectReason): Snapshot {
    snapshot.(mode := NoNavSolution, status := Rejected, source := SourceNone, reject := reason,
              position := ZERO_POSITION, haccMm := 0, vaccMm := 0)
  }

  /** A snapshot whose solution is the local fix. */
  function WithLocalFix(snapshot: Snapshot, g: GnssSample): Snapshot {
    snapshot.(mode := GnssOk, status := GnssDirect, source := SourceLocalGnss, position := g.position,
              haccMm := g.haccMm, vaccMm := g.vaccMm, reject := NotRejected,
              diag := snapshot.diag.(totalQuality := 1.0, altitudeValid := true, altitudeSource := AltGnss),
              gnss := snapshot.gnss.(used := true))
  }

  function AltitudeDiag(d: Diagnostics, altitude: LocalAltitude, area: real, c: Config): Diagnostics {
    d.(altitudeValid := true, altitudeSource := altitude.source, triangleAreaM2 := area,
       geometryScore := GeometryScore(area, c))
  }

  /** The solver's fix, converted and placed in the snapshot with its diagnostics. */
  function Placed(blank: Snapshot, d: Diagnostics, anchors: seq<Anchor>, altMm: int32, score: real, fix: SolveReply): Snapshot
    requires fix.Fix?
  {
    blank.(
      position := Position(AsInt32(Wrap32(RoundHalfAway(fix.latDeg * 10000000.0))),
                           AsInt32(Wrap32(RoundHalfAway(fix.lonDeg * 10000000.0))), altMm),
      haccMm := Wrap32(ToMm(Abs(fix.maxAbsM))), vaccMm := 0, reject := NotRejected,
      diag := d.(residualRmsM := fix.rmsM, maxResidualM := fix.maxAbsM, residualsMm := InMm(fix.residualsM),
                 totalQuality := MeanQuality(anchors) * score))
  }

  /** The last gate: outliers are rejected, weak solutions degraded. */
  function Graded(placed: Snapshot, score: real, c: Config): Snapshot {
    if placed.diag.residualRmsM > c.maxResidualRmsM || placed.diag.maxResidualM > c.maxResidualM then
      placed.(mode := NoNavSolution, status := Rejected, source := SourceNone, reject := RangeOutlier)
    else if placed.diag.totalQuality < c.minSolutionQuality || score < 1.0 then
      placed.(mode := RadioNavDegraded, status := Degraded, source := SourceRadio3D)
    else
      placed.(mode := RadioNavOk, status := Radio3D, source := SourceRadio3D)
  }

  function OutcomeOf(snapshot: Snapshot): SolveOutcome {
    if snapshot.status.Rejected? then OutcomeRejected else OutcomeSolved
  }

  /** A refused solve publishes no position. */
  function Refused(s: Core, blank: Snapshot, d: Diagnostics, reason: RejectReason, now: uint32): Core {
    Publish(s, RejectedAs(blank, reason).(diag := d), now, OutcomeRejected, 0)
  }

  /** An answered solve publishes the graded fix and each anchor's residual. */
  function Answered(s: Core, blank: Snapshot, d: Diagnostics, anchors: seq<Anchor>, altMm: int32, score: real,
                    fix: SolveReply, now: uint32): Core
    requires fix.Fix? && |anchors| == NAV_TRILAT_ANCHOR_COUNT
  {
    var snapshot := Graded(Placed(blank, d, anchors, altMm, score, fix), score, s.config);
    Publish(s.(peers := NoteResiduals(s.peers, anchors, fix.residualsM)), snapshot, now, OutcomeOf(snapshot), 0)
  }

  /** The state once a verdict has been carried out. */
  function Settle(s: Core, now: uint32, v: Verdict): (r: Core)
    requires v.Judged? ==> SelectionFits(v.sel)
    requires v.Judged? && v.ruling.Solved? ==> v.ruling.fix.Fix? && |v.sel.anchors| == NAV_TRILAT_ANCHOR_COUNT
    ensures r.mode == r.snapshot.mode && |r.peers| == |s.peers|
  {
    match v
    case UseGnss => Publish(s, WithLocalFix(Blank(s, now), s.localGnss), now, OutcomeGnssDirect, 0)
    case KeepPrevious => Publish(s, Kept(s, now), now, s.lastOutcome, s.lastElapsedMs)
    case KeepForCadence(elapsed) => Publish(s, Kept(s, now), now, OutcomeSkippedCadence, elapsed)
    case Judged(sel, ruling) => Ruled(Noted(s, now, sel), s, now, sel, ruling)
  }

  /** Every pass through anchor selection is noted in the peers and restarts the cadence. */
  function Noted(s: Core, now: uint32, sel: Selection): Core
    requires SelectionFits(sel)
  {
    s.(peers := NoteSelection(s.peers, sel), lastSolveMs := now, solveRan := true)
  }

  function Ruled(noted: Core, s: Core, now: uint32, sel: Selection, ruling: Ruling): (r: Core)
    requires SelectionFits(sel)
    requires ruling.Solved? ==> ruling.fix.Fix? && |sel.anchors| == NAV_TRILAT_ANCHOR_COUNT
    ensures r.mode == r.snapshot.mode && |r.peers| == |noted.peers|
  {
    var blank := Blank(s, now);
    var d := WithSelection(CLEARED, sel);
    match ruling
    case TooFewAnchors => Refused(noted, blank, d, NotEnoughAnchors, now)
    case NoAltitude => Refused(noted, blank, d, MissingLocalAltitude, now)
    case PoorGeometry(altitude, area) =>
      Refused(noted, blank, AltitudeDiag(d, altitude, area, s.config), BadGeometry, now)
    case Unchanged => Publish(noted, Kept(s, now), now, OutcomeSkippedUnchanged, 0)
    case SolverFailed(altitude, area, _) =>
      Refused(noted.(lastGeneration := s.generation), blank, AltitudeDiag(d, altitude, area, s.config),
              TrilaterationFailed, now)
    case Solved(altitude, area, _, fix) =>
      Answered(noted.(lastGeneration := s.generation), blank, AltitudeDiag(d, altitude, area, s.config),
               sel.anchors, altitude.altMm, GeometryScore(area, s.config), fix, now)
  }

  /** One state change and the solver call it made, if any. */
  datatype Outcome = Outcome(core: Core, call: Option<SolveInput>)

  function Refresh(num: Numerics, s: Core, now: uint32, allowSolve: bool): (o: Outcome)
    requires |s.peers| == NAV_MAX_NODES
    ensures |o.core.peers| == NAV_MAX_NODES
  {
    var v := Decide(num, s, now, allowSolve);
    Outcome(Settle(s, now, v), CallOf(v))
  }

  function Bump(s: Core, changed: bool): Core {
    if changed then s.(generation := NextGeneration(s.generation)) else s
  }

  predicate GnssAffectsSolve(c: Config) {
    c.forceDenied && c.allowGnssAltitudeWhenDenied && !c.ignoreAltitude
  }

  /** A failed exchange, as the range update it is stored as. */
  function FailedRange(f: RangeFailure): RangeResult {
    RangeResult(f.peerId, f.requestId, f.timestampMs, 0, 0, 0, 0, false)
  }

  function Ranged(s: Core, r: RangeResult, now: uint32): Core {
    if r.peerId < |s.peers| then s.(peers := s.peers[r.peerId := WithRange(s.peers[r.peerId], r, now)]) else s
  }

  /** Does this event count as a change of the solver's inputs? */
  predicate Bumps(s: Core, e: Event) {
    match e
    case GnssEvent(_, _) => GnssAffectsSolve(s.config)
    case AltitudeEvent(_, a) =>
      && (!s.altitudePresent || s.localAltitude.altMm != a.altMm || s.localAltitude.source != a.source
          || s.localAltitude.valid != a.valid)
      && !s.config.ignoreAltitude
    case BeaconEvent(_, b) => b.telemetry.nodeId < |s.peers|
    case RangeEvent(_, r) => r.peerId < |s.peers|
    case RangeFailEvent(_, _) => !s.config.retainLastRange
    case ConfigEvent(_, _) => true
    case _ => false
  }

  /** What the event itself stores, before the snapshot is refreshed. */
  function Absorb(s: Core, e: Event): (r: Core)
    ensures |r.peers| == |s.peers|
  {
    match e
    case EventNone(_) => s
    case Tick(now) =>
      s.(lastTickMs := now, peers := MarkedAll(s.peers, now, s.config.telemetryTtlMs, s.config.rangeTtlMs))
    case GnssEvent(_, sample) => s.(localGnss := sample, gnssPresent := true)
    case AltitudeEvent(_, a) => s.(localAltitude := a, altitudePresent := true)
    case BeaconEvent(now, b) =>
      var id := b.telemetry.nodeId;
      if id < |s.peers| then s.(peers := s.peers[id := WithBeacon(s.peers[id], b, now)]) else s
    case RangeEvent(now, r) => Ranged(s, r, now)
    case RangeFailEvent(now, f) => if s.config.retainLastRange then s else Ranged(s, FailedRange(f), now)
    case ConfigEvent(_, command) =>
      match command
      case CmdForceDenied(enabled) => s.(config := s.config.(forceDenied := enabled))
      case CmdUseGnss => s.(config := s.config.(forceDenied := false))
      case CmdNone => s
  }

  /** One event: store, count the input change, refresh the snapshot; only a tick may reach the solver. */
  function Step(num: Numerics, s: Core, e: Event): (o: Outcome)
    requires |s.peers| == NAV_MAX_NODES
    ensures |o.core.peers| == NAV_MAX_NODES
  {
    if e.EventNone? then Outcome(s, None)
    else Refresh(num, Bump(Absorb(s, e), Bumps(s, e)), e.now, e.Tick?)
  }

  /** The state after a whole event history. */
  function Run(num: Numerics, s: Core, events: seq<Event>): (r: Core)
    requires |s.peers| == NAV_MAX_NODES
    ensures |r.peers| == NAV_MAX_NODES
  {
    if events == [] then s
    else Step(num, Run(num, s, events[..|events| - 1]), events[|events| - 1]).core
  }
}
