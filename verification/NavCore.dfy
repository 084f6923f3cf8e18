/** The navigation core as the program runs it: one system object updated field by field. */
module NavCore {
  import opened Words
  import opened NavTypes
  import opened PeerTable
  import opened AnchorSelection
  import opened NavState

  class NavSystem {
    const num: Numerics
    const table: Table
    var config: Config
    var localGnss: GnssSample
    var localAltitude: LocalAltitude
    var gnssPresent: bool
    var altitudePresent: bool
    var mode: NavMode
    var snapshot: Snapshot
    var lastTickMs: uint32
    var solveRan: bool
    var lastSolveMs: uint32
    var generation: uint32
    var lastGeneration: uint32
    var lastOutcome: SolveOutcome
    var lastElapsedMs: uint32
    ghost var calls: seq<SolveInput>  // every solver call made so far

    ghost predicate Valid()
    {
      table.peers.Length == NAV_MAX_NODES
    }

    ghost function View(): Core
      reads this, table.peers
    {
      Core(config, table.peers[..], localGnss, localAltitude, gnssPresent, altitudePresent, mode, snapshot,
           lastTickMs, solveRan, lastSolveMs, generation, lastGeneration, lastOutcome, lastElapsedMs)
    }

    constructor (config: Config, num: Numerics)
      ensures Valid() && View() == Init(config) && calls == [] && this.num == num
      ensures fresh(table) && fresh(table.peers)
    {
      this.num := num;
      this.config := config;
      table := new Table(NAV_MAX_NODES);
      localGnss, gnssPresent := ZERO_SAMPLE, false;
      localAltitude, altitudePresent := LocalAltitude(0, 0, AltNone, false), false;
      mode := Boot;
      snapshot := Init(config).snapshot;
      lastTickMs, solveRan, lastSolveMs := 0, false, 0;
      generation, lastGeneration := 0, 0;
      lastOutcome, lastElapsedMs := OutcomeNone, 0;
      calls := [];
    }

    method MarkInputsChanged()
      modifies this`generation
      ensures generation == NextGeneration(old(generation)) != 0
    {
      generation := Wrap32(generation + 1);
      if generation == 0 {
        generation := Wrap32(generation + 1);
      }
    }

    method ClearDiagnostics()
      modifies this`snapshot
      ensures snapshot == old(snapshot).(source := SourceNone, diag := CLEARED)
    {
      snapshot := snapshot.(source := SourceNone, diag := CLEARED);
    }

    method PopulateEvidence(now: uint32)
      modifies this`snapshot
      ensures View() == old(View()).(snapshot := old(snapshot).(gnss := Evidence(old(View()), now)))
    {
      snapshot := snapshot.(gnss := NO_EVIDENCE.(present := gnssPresent));
      if !gnssPresent {
        return;
      }
      snapshot := snapshot.(gnss := snapshot.gnss.(
        valid := SampleIsUsable(localGnss), ageMs := Since(now, localGnss.timestampMs)));
      snapshot := snapshot.(gnss := snapshot.gnss.(fixType := localGnss.fixType, satellites := localGnss.satellites));
      snapshot := snapshot.(gnss := snapshot.gnss.(
        hdopCenti := localGnss.hdopCenti, haccMm := localGnss.haccMm, vaccMm := localGnss.vaccMm));
      snapshot := snapshot.(gnss := snapshot.gnss.(position := localGnss.position));
    }

    method PopulateSolveInfo(now: uint32, outcome: SolveOutcome, elapsed: uint32)
      modifies this`snapshot, this`lastOutcome, this`lastElapsedMs
      ensures View() == Report(old(View()), now, outcome, elapsed)
    {
      lastOutcome, lastElapsedMs := outcome, elapsed;
      var age := if solveRan then Since(now, lastSolveMs) else 0;
      snapshot := snapshot.(solve := SolveInfo(outcome, age, elapsed, config.solveIntervalMs, generation, lastGeneration));
    }

    method SetRejected(now: uint32, reason: RejectReason)
      modifies this`snapshot
      ensures snapshot == RejectedAs(old(snapshot).(timeMs := now, nodeId := config.localNodeId), reason)
    {
      snapshot := snapshot.(timeMs := now, nodeId := config.localNodeId);
      snapshot := snapshot.(mode := NoNavSolution, status := Rejected, source := SourceNone, reject := reason);
      snapshot := snapshot.(position := ZERO_POSITION, haccMm := 0, vaccMm := 0);
    }

    method ReusePrevious(previous: Snapshot, now: uint32, outcome: SolveOutcome, elapsed: uint32)
      modifies this`snapshot, this`lastOutcome, this`lastElapsedMs
      ensures View() == Report(old(View()).(snapshot := previous.(
          timeMs := now, nodeId := config.localNodeId, gnss := Evidence(old(View()), now))), now, outcome, elapsed)
    {
      snapshot := previous;
      snapshot := snapshot.(timeMs := now, nodeId := config.localNodeId);
      PopulateEvidence(now);
      PopulateSolveInfo(now, outcome, elapsed);
    }

    /** Copies a selection into the snapshot's fixed arrays, entry by entry. */
    method CopySelection(sel: Buffer)
      requires sel.Valid() && SelectionFits(sel.View())
      requires ReadyFor(snapshot.diag, sel.View())
      modifies this`snapshot
      ensures snapshot == old(snapshot).(diag := WithSelection(old(snapshot).diag, sel.View()))
    {
      snapshot := snapshot.(diag := snapshot.diag.(numAnchors := sel.count, rejectedCount := sel.rejectedCount));
      var ids := Overlay(snapshot.diag.selectedIds, Ids(sel.anchors[..sel.count]));
      var rejected := Overlay(snapshot.diag.rejectedIds, sel.rejectedIds[..sel.rejectedCount]);
      var reasons := Overlay(snapshot.diag.rejectedReasons, sel.rejectedReasons[..sel.rejectedCount]);
      ghost var d := WithSelection(snapshot.diag, sel.View());
      assert ids == d.selectedIds && rejected == d.rejectedIds && reasons == d.rejectedReasons;
      snapshot := snapshot.(diag := snapshot.diag.(selectedIds := ids, rejectedIds := rejected, rejectedReasons := reasons));
    }

    /** Writes `xs` over the front of a fixed array, leaving the rest. */
    static method Overlay<T>(base: seq<T>, xs: seq<T>) returns (r: seq<T>)
      requires |xs| <= |base|
      ensures r == xs + base[|xs|..]
    {
      r := base;
      for i := 0 to |xs|
        invariant |r| == |base| && r[..i] == xs[..i] && r[i..] == base[i..]
      {
        r := r[i := xs[i]];
      }
    }

    method NotePeer(id: uint8, quality: real, reason: RejectReason)
      modifies table.peers
      ensures table.peers[..] == NoteOne(old(table.peers[..]), id, quality, reason)
    {
      var peer := table.Get(id);
      if peer.Some? {
        table.peers[id] := table.peers[id].(anchorQuality := quality, lastReject := reason);
      }
    }

    method UpdatePeerDiagnostics(sel: Buffer)
      requires Valid() && sel.Valid() && sel.rejectedIds.Length == sel.rejectedReasons.Length
      modifies table.peers
      ensures table.peers[..] == NoteSelection(old(table.peers[..]), sel.View())
    {
      for id := 0 to NAV_MAX_NODES
        invariant forall k :: 0 <= k < id ==> table.peers[k] == ResetDiagnostics(old(table.peers[..]))[k]
        invariant forall k :: id <= k < NAV_MAX_NODES ==> table.peers[k] == old(table.peers[k])
      {
        if table.peers[id].present {
          table.peers[id] := table.peers[id].(anchorQuality := 0.0, lastReject := NotRejected);
        }
      }
      ghost var reset := ResetDiagnostics(old(table.peers[..]));
      assert table.peers[..] == reset;
      ghost var v := sel.View();
      for i := 0 to sel.count
        invariant sel.View() == v
        invariant table.peers[..] == NoteAnchors(reset, v.anchors[..i])
      {
        assert v.anchors[..i + 1][..i] == v.anchors[..i];
        NotePeer(sel.anchors[i].nodeId, sel.anchors[i].quality, NotRejected);
      }
      assert v.anchors[..sel.count] == v.anchors;
      ghost var chosen := table.peers[..];
      for i := 0 to sel.rejectedCount
        invariant sel.View() == v
        invariant table.peers[..] == NoteRejected(chosen, v.rejectedIds[..i], v.rejectedReasons[..i])
      {
        assert v.rejectedIds[..i + 1][..i] == v.rejectedIds[..i];
        assert v.rejectedReasons[..i + 1][..i] == v.rejectedReasons[..i];
        NotePeer(sel.rejectedIds[i], 0.0, sel.rejectedReasons[i]);
      }
      assert v.rejectedIds[..sel.rejectedCount] == v.rejectedIds;
      assert v.rejectedReasons[..sel.rejectedCount] == v.rejectedReasons;
    }

    method Resolve(now: uint32) returns (altitude: Option<LocalAltitude>)
      ensures altitude == ResolveAltitude(View(), now)
    {
      if altitudePresent && AltitudeFresh(localAltitude, now, config.localAltitudeTtlMs) {
        return Some(localAltitude);
      }
      var allowed := !config.forceDenied || config.allowGnssAltitudeWhenDenied;
      if allowed && gnssPresent && SampleIsUsable(localGnss) {
        var age := Since(now, localGnss.timestampMs);
        if config.localAltitudeTtlMs == 0 || age <= config.localAltitudeTtlMs {
          return Some(LocalAltitude(localGnss.position.altMm, localGnss.timestampMs, AltGnss, true));
        }
      }
      altitude := None;
    }

    /** Builds the solver's input and the mean anchor quality in one loop. */
    method PrepareInput(anchors: array<Anchor>, altMm: int32) returns (input: SolveInput, quality: real)
      requires anchors.Length == NAV_TRILAT_ANCHOR_COUNT
      ensures input == InputFor(anchors[..], altMm, config.ignoreAltitude)
      ensures quality == MeanQuality(anchors[..])
    {
      var prepared: seq<TrilatAnchor> := [];
      quality := 0.0;
      for i := 0 to NAV_TRILAT_ANCHOR_COUNT
        invariant |prepared| == i
        invariant forall k :: 0 <= k < i ==> prepared[k] == ToTrilat(anchors[k], config.ignoreAltitude)
        invariant quality == MeanQuality(anchors[..i])
      {
        assert anchors[..i + 1][..i] == anchors[..i];
        prepared := prepared + [ToTrilat(anchors[i], config.ignoreAltitude)];
        quality := quality + anchors[i].quality / (NAV_TRILAT_ANCHOR_COUNT as real);
      }
      assert anchors[..NAV_TRILAT_ANCHOR_COUNT] == anchors[..];
      input := SolveInput(prepared, if config.ignoreAltitude then 0.0 else altMm as real / 1000.0);
      assert input.anchors == InputFor(anchors[..], altMm, config.ignoreAltitude).anchors;
    }

    /** Stores the per-anchor residuals in the snapshot and in the peers. */
    method StoreResiduals(anchors: array<Anchor>, residuals: seq<real>)
      requires Valid() && anchors.Length == NAV_TRILAT_ANCHOR_COUNT == |residuals|
      requires |snapshot.diag.residualsMm| == NAV_TRILAT_ANCHOR_COUNT
      modifies this`snapshot, table.peers
      ensures snapshot == old(snapshot).(diag := old(snapshot).diag.(residualsMm := InMm(residuals)))
      ensures table.peers[..] == NoteResiduals(old(table.peers[..]), anchors[..], residuals)
    {
      ghost var was := anchors[..];
      var mm := snapshot.diag.residualsMm;
      for i := 0 to NAV_TRILAT_ANCHOR_COUNT
        invariant snapshot == old(snapshot)
        invariant |mm| == NAV_TRILAT_ANCHOR_COUNT && anchors[..] == was
        invariant forall k :: 0 <= k < i ==> mm[k] == AsInt32(Wrap32(ToMm(residuals[k])))
        invariant table.peers[..] == NoteResiduals(old(table.peers[..]), was[..i], residuals[..i])
      {
        assert was[..i + 1][..i] == was[..i] && residuals[..i + 1][..i] == residuals[..i];
        mm := mm[i := AsInt32(Wrap32(ToMm(residuals[i])))];
        var peer := table.Get(anchors[i].nodeId);
        if peer.Some? {
          table.peers[anchors[i].nodeId] := table.peers[anchors[i].nodeId].(lastResidualM := residuals[i]);
        }
      }
      assert was[..NAV_TRILAT_ANCHOR_COUNT] == was && residuals[..NAV_TRILAT_ANCHOR_COUNT] == residuals;
      assert mm == InMm(residuals);
      snapshot := snapshot.(diag := snapshot.diag.(residualsMm := mm));
    }

    /** Places the solver's fix in the snapshot and the residuals in the peers. */
    method PlaceFix(sel: Buffer, altMm: int32, fix: SolveReply, quality: real, score: real)
      requires Valid() && sel.anchors.Length == NAV_TRILAT_ANCHOR_COUNT
      requires fix.Fix? && quality == MeanQuality(sel.anchors[..])
      requires |snapshot.diag.residualsMm| == NAV_TRILAT_ANCHOR_COUNT
      modifies this`snapshot, table.peers
      ensures snapshot == Placed(old(snapshot), old(snapshot.diag), old(sel.anchors[..]), altMm, score, fix)
      ensures table.peers[..] == NoteResiduals(old(table.peers[..]), old(sel.anchors[..]), fix.residualsM)
    {
      snapshot := snapshot.(position := Position(
        AsInt32(Wrap32(RoundHalfAway(fix.latDeg * 10000000.0))),
        AsInt32(Wrap32(RoundHalfAway(fix.lonDeg * 10000000.0))), altMm));
      snapshot := snapshot.(diag := snapshot.diag.(residualRmsM := fix.rmsM, maxResidualM := fix.maxAbsM));
      StoreResiduals(sel.anchors, fix.residualsM);
      snapshot := snapshot.(haccMm := Wrap32(ToMm(Abs(fix.maxAbsM))), vaccMm := 0, reject := NotRejected);
      snapshot := snapshot.(diag := snapshot.diag.(totalQuality := quality * score));
    }

    /** The residual, quality and geometry gates on a placed fix. */
    method GradeFix(now: uint32, score: real)
      modifies this`snapshot, this`lastOutcome, this`lastElapsedMs
      ensures var graded := Graded(old(snapshot), score, config);
        View() == Report(old(View()).(snapshot := graded), now, OutcomeOf(graded), 0)
    {
      var outcome := GateResiduals(score);
      PopulateSolveInfo(now, outcome, 0);
    }

    /** The residual gate, and the grade of what passes it. */
    method GateResiduals(score: real) returns (outcome: SolveOutcome)
      modifies this`snapshot
      ensures snapshot == Graded(old(snapshot), score, config) && outcome == OutcomeOf(snapshot)
    {
      if snapshot.diag.residualRmsM > config.maxResidualRmsM || snapshot.diag.maxResidualM > config.maxResidualM {
        snapshot := snapshot.(mode := NoNavSolution, status := Rejected, source := SourceNone, reject := RangeOutlier);
        return OutcomeRejected;
      }
      if snapshot.diag.totalQuality < config.minSolutionQuality || score < 1.0 {
        snapshot := snapshot.(mode := RadioNavDegraded, status := Degraded, source := SourceRadio3D);
      } else {
        snapshot := snapshot.(mode := RadioNavOk, status := Radio3D, source := SourceRadio3D);
      }
      outcome := OutcomeSolved;
    }

    /** A refused solve: no position, the selection and the evidence shown again. */
    method Refuse(now: uint32, reason: RejectReason, sel: Buffer, ghost was: Core, ghost blank: Snapshot, ghost d: Diagnostics)
      requires sel.Valid() && SelectionFits(sel.View()) && d == WithSelection(d, sel.View())
      requires View() == was.(snapshot := blank.(diag := d))
      requires blank.timeMs == now && blank.nodeId == config.localNodeId && blank.gnss == Evidence(was, now)
      modifies this`snapshot, this`lastOutcome, this`lastElapsedMs
      ensures View() == Refused(was, blank, d, reason, now).(mode := was.mode)
    {
      SetRejected(now, reason);
      CopySelection(sel);
      PopulateEvidence(now);
      PopulateSolveInfo(now, OutcomeRejected, 0);
    }

    /** The solver call itself, and what its answer makes of the snapshot. */
    method RunSolver(now: uint32, sel: Buffer, altitude: LocalAltitude, score: real,
                     ghost was: Core, ghost blank: Snapshot, ghost d: Diagnostics)
      requires Valid() && sel.anchors.Length == NAV_TRILAT_ANCHOR_COUNT == sel.count
      requires sel.Valid() && SelectionFits(sel.View())
      requires d == WithSelection(d, sel.View()) && |d.residualsMm| == NAV_TRILAT_ANCHOR_COUNT
      requires View() == was.(snapshot := blank.(diag := d))
      requires blank.timeMs == now && blank.nodeId == config.localNodeId && blank.gnss == Evidence(was, now)
      modifies this, table.peers
      ensures Valid()
      ensures
        var anchors := old(sel.View()).anchors;
        var input := InputFor(anchors, altitude.altMm, was.config.ignoreAltitude);
        var fix := num.solve(input);
        var tried := was.(lastGeneration := was.generation);
        && calls == old(calls) + [input]
        && View() == (if fix.NoFix? then Refused(tried, blank, d, TrilaterationFailed, now)
                      else Answered(tried, blank, d, anchors, altitude.altMm, score, fix, now)).(mode := was.mode)
    {
      assert sel.anchors[..] == sel.View().anchors;
      var input, quality := PrepareInput(sel.anchors, altitude.altMm);
      var fix := num.solve(input);
      calls := calls + [input];
      lastGeneration := generation;
      if fix.NoFix? {
        Refuse(now, TrilaterationFailed, sel, was.(lastGeneration := was.generation), blank, d);
        return;
      }
      PlaceFix(sel, altitude.altMm, fix, quality, score);
      GradeFix(now, score);
    }

    /** The gates on a full selection with a known altitude: geometry, unchanged inputs, then the solver. */
    method JudgeGeometry(now: uint32, previous: Snapshot, sel: Buffer, altitude: LocalAltitude, ghost noted: Core, ghost was: Core)
      requires Valid() && was.snapshot == previous
      requires sel.Valid() && SelectionFits(sel.View()) && sel.anchors.Length == NAV_TRILAT_ANCHOR_COUNT == sel.count
      requires ResolveAltitude(was, now) == Some(altitude)
      requires noted == Noted(was, now, sel.View())
      requires View() == noted.(snapshot := Blank(was, now).(diag := WithSelection(CLEARED, sel.View())))
      modifies this, table.peers
      ensures Valid()
      ensures var sel := old(sel.View());
        var ruling := Rule(num, was, now, sel);
        && View() == Ruled(noted, was, now, sel, ruling).(mode := was.mode)
        && calls == old(calls) + Called(Judged(sel, ruling))
    {
      assert sel.anchors[..] == sel.View().anchors;
      var area := num.area(sel.anchors[..]);
      var score := GeometryScore(area, config);
      NoteGeometry(altitude, area, score);
      ghost var d := AltitudeDiag(WithSelection(CLEARED, sel.View()), altitude, area, was.config);
      if area < config.minTriangleAreaM2 {
        Refuse(now, BadGeometry, sel, noted, Blank(was, now), d);
        return;
      }
      if generation == lastGeneration {
        ReusePrevious(previous, now, OutcomeSkippedUnchanged, 0);
        return;
      }
      RunSolver(now, sel, altitude, score, noted, Blank(was, now), d);
    }

    /** Shows the altitude used and the geometry of the anchors. */
    method NoteGeometry(altitude: LocalAltitude, area: real, score: real)
      requires score == GeometryScore(area, config)
      modifies this`snapshot
      ensures snapshot == old(snapshot).(diag := AltitudeDiag(old(snapshot).diag, altitude, area, config))
    {
      snapshot := snapshot.(diag := snapshot.diag.(altitudeValid := true, altitudeSource := altitude.source));
      snapshot := snapshot.(diag := snapshot.diag.(triangleAreaM2 := area, geometryScore := score));
    }

    /** The gates after selection: enough anchors, a usable altitude, then the rest. */
    method JudgeSelection(now: uint32, previous: Snapshot, sel: Buffer, status: Status, ghost noted: Core, ghost was: Core)
      requires Valid() && was.snapshot == previous
      requires sel.Valid() && SelectionFits(sel.View()) && sel.anchors.Length == NAV_TRILAT_ANCHOR_COUNT
      requires status == if sel.count < sel.anchors.Length then NotFound else Ok
      requires sel.rejectReason == if sel.count < sel.anchors.Length then NotEnoughAnchors else NotRejected
      requires noted == Noted(was, now, sel.View())
      requires View() == noted.(snapshot := Blank(was, now).(diag := WithSelection(CLEARED, sel.View())))
      modifies this, table.peers
      ensures Valid()
      ensures var sel := old(sel.View());
        var ruling := Rule(num, was, now, sel);
        && View() == Ruled(noted, was, now, sel, ruling).(mode := was.mode)
        && calls == old(calls) + Called(Judged(sel, ruling))
    {
      if status != Ok {
        Refuse(now, sel.rejectReason, sel, noted, Blank(was, now), WithSelection(CLEARED, sel.View()));
        return;
      }
      var altitude := Resolve(now);
      if altitude.None? {
        Refuse(now, MissingLocalAltitude, sel, noted, Blank(was, now), WithSelection(CLEARED, sel.View()));
        return;
      }
      JudgeGeometry(now, previous, sel, altitude.value, noted, was);
    }

    /** The part of a tick past the cadence gate. */
    method SolveFromPeers(now: uint32, previous: Snapshot, ghost was: Core)
      requires Valid() && |was.peers| == NAV_MAX_NODES && was.snapshot == previous
      requires View() == was.(snapshot := Blank(was, now))
      modifies this, table.peers
      ensures Valid()
      ensures var sel := SelectionAt(was, now);
        var ruling := Rule(num, was, now, sel);
        && View() == Ruled(Noted(was, now, sel), was, now, sel, ruling).(mode := was.mode)
        && calls == old(calls) + Called(Judged(sel, ruling))
    {
      var sel := new Buffer(NAV_TRILAT_ANCHOR_COUNT, NAV_MAX_NODES);
      var status := sel.SelectRadioAnchors(table.peers, now, LimitsOf(config));
      NoteEverywhere(now, sel);
      JudgeSelection(now, previous, sel, status, Noted(was, now, sel.View()), was);
    }

    /** The gated pipeline of a tick: cadence, anchor selection, then the gates. */
    method AttemptSolution(now: uint32, previous: Snapshot, ghost was: Core)
      requires Valid() && |was.peers| == NAV_MAX_NODES && !LocalUsable(was) && was.snapshot == previous
      requires View() == was.(snapshot := Blank(was, now))
      modifies this, table.peers
      ensures Valid()
      ensures var v := Decide(num, was, now, true);
        && (v.Judged? ==> SelectionFits(v.sel))
        && View() == Settle(was, now, v).(mode := was.mode)
        && calls == old(calls) + Called(v)
    {
      if solveRan {
        var elapsed := Since(now, lastSolveMs);
        if config.solveIntervalMs > 0 && elapsed < config.solveIntervalMs {
          ReusePrevious(previous, now, OutcomeSkippedCadence, elapsed);
          return;
        }
      }
      SolveFromPeers(now, previous, was);
    }

    /** Notes the selection in the peers and the snapshot, and restarts the cadence. */
    method NoteEverywhere(now: uint32, sel: Buffer)
      requires Valid() && snapshot.diag == CLEARED
      requires sel.Valid() && SelectionFits(sel.View())
      modifies this, table.peers
      ensures Valid() && calls == old(calls)
      ensures View() == Noted(old(View()), now, old(sel.View())).(
        snapshot := old(snapshot).(diag := WithSelection(CLEARED, old(sel.View()))))
    {
      UpdatePeerDiagnostics(sel);
      CopySelection(sel);
      lastSolveMs, solveRan := now, true;
    }

    static ghost function Called(v: Verdict): seq<SolveInput> {
      if CallOf(v).Some? then [CallOf(v).value] else []
    }

    /** The solution taken straight from a usable, permitted local fix. */
    method UseLocalFix(now: uint32)
      requires snapshot.diag == CLEARED
      modifies this`snapshot, this`lastOutcome, this`lastElapsedMs
      ensures View() == Report(old(View()).(snapshot := WithLocalFix(old(snapshot), localGnss)), now, OutcomeGnssDirect, 0)
    {
      snapshot := snapshot.(mode := GnssOk, status := GnssDirect, source := SourceLocalGnss);
      snapshot := snapshot.(position := localGnss.position, haccMm := localGnss.haccMm, vaccMm := localGnss.vaccMm);
      snapshot := snapshot.(diag := snapshot.diag.(totalQuality := 1.0), reject := NotRejected);
      snapshot := snapshot.(diag := snapshot.diag.(altitudeValid := true, altitudeSource := AltGnss));
      snapshot := snapshot.(gnss := snapshot.gnss.(used := true));
      PopulateSolveInfo(now, OutcomeGnssDirect, 0);
    }

    /** Stamps the snapshot, renews the evidence and clears the rest. */
    method BeginSnapshot(now: uint32)
      modifies this`snapshot
      ensures View() == old(View()).(snapshot := Blank(old(View()), now))
    {
      ClearDiagnostics();
      snapshot := snapshot.(timeMs := now, nodeId := config.localNodeId);
      PopulateEvidence(now);
    }

    method UpdateSnapshot(now: uint32, allowSolve: bool)
      requires Valid()
      modifies this, table.peers
      ensures Valid()
      ensures var v := Decide(num, old(View()), now, allowSolve);
        && (v.Judged? ==> SelectionFits(v.sel))
        && View() == Settle(old(View()), now, v) && calls == old(calls) + Called(v)
    {
      ghost var was := View();
      var localUsable := SampleIsUsable(localGnss) && !config.forceDenied;
      var previous := snapshot;
      BeginSnapshot(now);
      if localUsable {
        UseLocalFix(now);
      } else if allowSolve {
        AttemptSolution(now, previous, was);
      } else {
        ReusePrevious(previous, now, lastOutcome, lastElapsedMs);
      }
      mode := snapshot.mode;
    }

    method Tick(now: uint32)
      requires Valid()
      modifies this, table.peers
      ensures Valid()
      ensures View() == Step(num, old(View()), NavState.Tick(now)).core
      ensures calls == old(calls) + Calls(num, old(View()), NavState.Tick(now))
    {
      lastTickMs := now;
      table.MarkStale(now, config.telemetryTtlMs, config.rangeTtlMs);
      assert View() == Absorb(old(View()), NavState.Tick(now));
      UpdateSnapshot(now, true);
    }

    /** Stores an event's content and counts the change of solver inputs it makes. */
    method StoreEvent(e: Event)
      requires Valid() && !e.Tick? && !e.EventNone?
      modifies this, table.peers
      ensures Valid() && calls == old(calls)
      ensures View() == Bump(Absorb(old(View()), e), Bumps(old(View()), e))
    {
      match e {
        case GnssEvent(_, sample) =>
          localGnss, gnssPresent := sample, true;
          if GnssAffectsSolve(config) {
            MarkInputsChanged();
          }
        case AltitudeEvent(now, a) =>
          StoreAltitude(now, a);
        case BeaconEvent(now, b) =>
          var ok := table.UpdateBeacon(b, now);
          if ok {
            MarkInputsChanged();
          }
        case RangeEvent(now, r) =>
          var ok := table.UpdateRange(r, now);
          if ok {
            MarkInputsChanged();
          }
        case RangeFailEvent(now, f) =>
          if !config.retainLastRange {
            var _ := table.UpdateRange(FailedRange(f), now);
            MarkInputsChanged();
          }
        case ConfigEvent(_, command) =>
          ObeyCommand(command);
          MarkInputsChanged();
      }
    }

    method ObeyCommand(command: ConfigCommand)
      modifies this`config
      ensures config.forceDenied == (if command.CmdNone? then old(config).forceDenied
                                     else command.CmdForceDenied? && command.enabled)
      ensures config == old(config).(forceDenied := config.forceDenied)
    {
      match command {
        case CmdForceDenied(enabled) => config := config.(forceDenied := enabled);
        case CmdUseGnss => config := config.(forceDenied := false);
        case CmdNone =>
      }
    }

    /** Stores an altitude; only a changed value, source or validity counts as a new input. */
    method StoreAltitude(now: uint32, a: LocalAltitude)
      requires Valid()
      modifies this`localAltitude, this`altitudePresent, this`generation
      ensures Valid()
      ensures View() == Bump(Absorb(old(View()), AltitudeEvent(now, a)), Bumps(old(View()), AltitudeEvent(now, a)))
    {
      var changed := !altitudePresent || localAltitude.altMm != a.altMm || localAltitude.source != a.source
        || localAltitude.valid != a.valid;
      localAltitude, altitudePresent := a, true;
      if changed && !config.ignoreAltitude {
        MarkInputsChanged();
      }
    }

    /** Every event takes the system to the state `Step` prescribes and makes exactly its solver call. */
    method HandleEvent(e: Event)
      requires Valid()
      modifies this, table.peers
      ensures Valid()
      ensures View() == Step(num, old(View()), e).core
      ensures calls == old(calls) + Calls(num, old(View()), e)
    {
      if e.EventNone? {
        return;
      }
      if e.Tick? {
        Tick(e.now);
        return;
      }
      StoreEvent(e);
      UpdateSnapshot(e.now, false);
    }

    /** The solver calls one event makes: none or one. */
    static ghost function Calls(num: Numerics, s: Core, e: Event): seq<SolveInput>
      requires |s.peers| == NAV_MAX_NODES
    {
      var call := Step(num, s, e).call;
      if call.Some? then [call.value] else []
    }
  }
}
