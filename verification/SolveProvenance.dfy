/** Where the solver's inputs come from, over a whole history of events. */
module SolveProvenance {
  import opened Words
  import opened NavTypes
  import opened PeerTable
  import opened PeerHistory
  import opened AnchorSelection
  import opened NavState
  import opened SolveCadence

  /** A peer slot without the diagnostics the core writes back. */
  function BarePeer(p: PeerState): PeerState {
    p.(telemetryQuality := 0.0, rangeQuality := 0.0, anchorQuality := 0.0, lastResidualM := 0.0, lastReject := NotRejected)
  }

  function Bare(peers: seq<PeerState>): (r: seq<PeerState>)
    ensures |r| == |peers|
  {
    seq(|peers|, i requires 0 <= i < |peers| => BarePeer(peers[i]))
  }

  /** The peer-table operation an event amounts to. */
  function OpOf(c: Config, e: Event): seq<PeerOp> {
    match e
    case Tick(now) => [MarkOp(now, c.telemetryTtlMs, c.rangeTtlMs)]
    case BeaconEvent(now, b) => [BeaconOp(b, now)]
    case RangeEvent(now, r) => [RangeOp(r, now)]
    case RangeFailEvent(now, f) => if c.retainLastRange then [] else [RangeOp(FailedRange(f), now)]
    case _ => []
  }

  function OpsOf(c: Config, events: seq<Event>): seq<PeerOp> {
    if events == [] then [] else OpsOf(c, events[..|events| - 1]) + OpOf(c, events[|events| - 1])
  }

  lemma BareApply(a: seq<PeerState>, b: seq<PeerState>, op: PeerOp)
    requires Bare(a) == Bare(b)
    ensures Bare(Apply(a, op)) == Bare(Apply(b, op))
  {
    forall i | 0 <= i < |a|
      ensures BarePeer(Apply(a, op)[i]) == BarePeer(Apply(b, op)[i])
    {
      assert Bare(a)[i] == Bare(b)[i];
    }
    assert Bare(Apply(a, op)) == Bare(Apply(b, op));
  }

  lemma BareNotes(peers: seq<PeerState>, id: uint8, quality: real, reason: RejectReason)
    ensures Bare(NoteOne(peers, id, quality, reason)) == Bare(peers)
    ensures Bare(ResetDiagnostics(peers)) == Bare(peers)
  {
  }

  lemma {:induction false} BareAnchors(peers: seq<PeerState>, anchors: seq<Anchor>)
    ensures Bare(NoteAnchors(peers, anchors)) == Bare(peers)
  {
    if anchors != [] {
      var k := |anchors| - 1;
      BareAnchors(peers, anchors[..k]);
      BareNotes(NoteAnchors(peers, anchors[..k]), anchors[k].nodeId, anchors[k].quality, NotRejected);
    }
  }

  lemma {:induction false} BareRejected(peers: seq<PeerState>, ids: seq<uint8>, reasons: seq<RejectReason>)
    requires |ids| == |reasons|
    ensures Bare(NoteRejected(peers, ids, reasons)) == Bare(peers)
  {
    if ids != [] {
      var k := |ids| - 1;
      BareRejected(peers, ids[..k], reasons[..k]);
      BareNotes(NoteRejected(peers, ids[..k], reasons[..k]), ids[k], 0.0, reasons[k]);
    }
  }

  lemma {:induction false} BareResiduals(peers: seq<PeerState>, anchors: seq<Anchor>, residuals: seq<real>)
    requires |anchors| == |residuals|
    ensures Bare(NoteResiduals(peers, anchors, residuals)) == Bare(peers)
  {
    if anchors != [] {
      var k := |anchors| - 1;
      BareResiduals(peers, anchors[..k], residuals[..k]);
      assert Bare(NoteResiduals(peers, anchors, residuals)) == Bare(NoteResiduals(peers, anchors[..k], residuals[..k]));
    }
  }

  lemma BareSelection(peers: seq<PeerState>, sel: Selection)
    requires SelectionFits(sel)
    ensures Bare(NoteSelection(peers, sel)) == Bare(peers)
  {
    var reset := ResetDiagnostics(peers);
    BareNotes(peers, 0, 0.0, NotRejected);
    BareAnchors(reset, sel.anchors);
    BareRejected(NoteAnchors(reset, sel.anchors), sel.rejectedIds, sel.rejectedReasons);
  }

  /** The core writes nothing into the peer table but diagnostics. */
  lemma BareRuling(s: Core, now: uint32, sel: Selection, ruling: Ruling)
    requires SelectionFits(sel)
    requires ruling.Solved? ==> ruling.fix.Fix? && |sel.anchors| == NAV_TRILAT_ANCHOR_COUNT
    ensures Bare(Ruled(Noted(s, now, sel), s, now, sel, ruling).peers) == Bare(s.peers)
  {
    BareSelection(s.peers, sel);
    match ruling
    case TooFewAnchors =>
    case NoAltitude =>
    case PoorGeometry(_, _) =>
    case Unchanged =>
    case SolverFailed(_, _, _) =>
    case Solved(_, _, _, fix) => BareResiduals(NoteSelection(s.peers, sel), sel.anchors, fix.residualsM);
  }

  lemma BareRefresh(num: Numerics, s: Core, now: uint32, allowSolve: bool)
    requires |s.peers| == NAV_MAX_NODES
    ensures Bare(Refresh(num, s, now, allowSolve).core.peers) == Bare(s.peers)
  {
    match Decide(num, s, now, allowSolve)
    case UseGnss =>
    case KeepPrevious =>
    case KeepForCadence(_) =>
    case Judged(sel, ruling) => BareRuling(s, now, sel, ruling);
  }

  /** The thresholds of a configuration, which no command changes. */
  predicate SameRules(a: Config, b: Config) {
    && a.telemetryTtlMs == b.telemetryTtlMs && a.rangeTtlMs == b.rangeTtlMs
    && a.retainLastRange == b.retainLastRange && a.ignoreAltitude == b.ignoreAltitude
  }

  lemma StoredRules(s: Core, e: Event, c: Config)
    requires SameRules(s.config, c)
    ensures SameRules(Absorb(s, e).config, c)
  {
  }

  lemma StoredPeers(s: Core, e: Event, c: Config)
    requires SameRules(s.config, c)
    ensures var r := Bump(Absorb(s, e), Bumps(s, e));
      SameRules(r.config, c) && r.peers == ApplyAll(s.peers, OpOf(c, e))
  {
    StoredRules(s, e, c);
    AbsorbIsOp(s, e, c);
  }

  lemma AbsorbIsOp(s: Core, e: Event, c: Config)
    requires SameRules(s.config, c)
    ensures Absorb(s, e).peers == ApplyAll(s.peers, OpOf(c, e))
  {
    var op := OpOf(c, e);
    if op != [] {
      OneOp(s.peers, op[0]);
    }
  }

  lemma OneOp(peers: seq<PeerState>, op: PeerOp)
    ensures ApplyAll(peers, [op]) == Apply(peers, op)
  {
    assert [op][..0] == [];
  }

  lemma BareAppend(start: seq<PeerState>, peers: seq<PeerState>, ops: seq<PeerOp>, op: seq<PeerOp>)
    requires |op| <= 1 && Bare(peers) == Bare(ApplyAll(start, ops))
    ensures Bare(ApplyAll(peers, op)) == Bare(ApplyAll(start, ops + op))
  {
    if op == [] {
      assert ops + op == ops;
    } else {
      assert (ops + op)[..|ops|] == ops;
      assert ApplyAll(peers, op) == Apply(ApplyAll(peers, []), op[0]);
      BareApply(peers, ApplyAll(start, ops), op[0]);
    }
  }

  /** Diagnostics aside, the peer table of a running core is its operation history applied to the empty table. */
  lemma {:induction false} TableFollowsHistory(num: Numerics, config: Config, events: seq<Event>)
    ensures var s := Run(num, Init(config), events);
      && SameRules(s.config, config)
      && Bare(s.peers) == Bare(ApplyAll(EmptyTable(NAV_MAX_NODES), OpsOf(config, events)))
  {
    if events != [] {
      var before, e := events[..|events| - 1], events[|events| - 1];
      var s := Run(num, Init(config), before);
      TableFollowsHistory(num, config, before);
      StoredTable(num, config, before, e);
      if !e.EventNone? {
        RefreshTiming(num, Bump(Absorb(s, e), Bumps(s, e)), e.now, e.Tick?);
        BareRefresh(num, Bump(Absorb(s, e), Bumps(s, e)), e.now, e.Tick?);
      }
    }
  }

  lemma StoredTable(num: Numerics, config: Config, before: seq<Event>, e: Event)
    requires var s := Run(num, Init(config), before);
      && SameRules(s.config, config)
      && Bare(s.peers) == Bare(ApplyAll(EmptyTable(NAV_MAX_NODES), OpsOf(config, before)))
    ensures var r := Bump(Absorb(Run(num, Init(config), before), e), Bumps(Run(num, Init(config), before), e));
      && SameRules(r.config, config)
      && Bare(r.peers) == Bare(ApplyAll(EmptyTable(NAV_MAX_NODES), OpsOf(config, before + [e])))
  {
    var s := Run(num, Init(config), before);
    assert (before + [e])[..|before|] == before;
    StoredPeers(s, e, config);
    BareAppend(EmptyTable(NAV_MAX_NODES), s.peers, OpsOf(config, before), OpOf(config, e));
  }

  /** A solver anchor that pairs its node's last range with the coordinate heard last before that range. */
  ghost predicate Paired(a: TrilatAnchor, ops: seq<PeerOp>, ignoreAltitude: bool) {
    match LastRange(ops, a.nodeId)
    case None => false
    case Some(k) =>
      var position := PositionHeard(ops[..k], a.nodeId);
      && ops[k].range.valid && !RangeExpired(ops, k) && GnssValidHeard(ops[..k], a.nodeId)
      && a.distanceM == ops[k].range.rangeMm as real / 1000.0
      && a.latDeg == position.latE7 as real / 10000000.0 && a.lonDeg == position.lonE7 as real / 10000000.0
      && (!ignoreAltitude ==> a.altM == position.altMm as real / 1000.0)
  }

  lemma AnchorPaired(peers: seq<PeerState>, ops: seq<PeerOp>, id: uint8, now: uint32, limits: Limits, ignoreAltitude: bool)
    requires id < |peers| == NAV_MAX_NODES
    requires Bare(peers) == Bare(ApplyAll(EmptyTable(NAV_MAX_NODES), ops))
    requires Gate(peers[id], now, limits).NotRejected?
    ensures Paired(ToTrilat(AnchorOf(id, peers[id], now, limits), ignoreAltitude), ops, ignoreAltitude)
  {
    assert Bare(peers)[id] == BarePeer(ApplyAll(EmptyTable(NAV_MAX_NODES), ops)[id]);
    RangePairing(NAV_MAX_NODES, ops, id);
  }

  /** No solve mixes a range with a later coordinate: every anchor of every solver call, in every run, carries the
      last range of its node together with the position that node had reported last before it. */
  lemma EverySolveIsPaired(num: Numerics, config: Config, events: seq<Event>, e: Event)
    requires Step(num, Run(num, Init(config), events), e).call.Some?
    ensures var input := Step(num, Run(num, Init(config), events), e).call.value;
      forall a <- input.anchors :: Paired(a, OpsOf(config, events + [e]), config.ignoreAltitude)
  {
    TableFollowsHistory(num, config, events);
    StoredTable(num, config, events, e);
    var before := Run(num, Init(config), events);
    SolverAnchorsPaired(num, Bump(Absorb(before, e), Bumps(before, e)), e.now, e.Tick?,
                        OpsOf(config, events + [e]), config);
  }

  lemma SelectedPassedGate(s: Core, now: uint32, i: nat)
    requires |s.peers| == NAV_MAX_NODES && i < |SelectionAt(s, now).anchors|
    ensures var a := SelectionAt(s, now).anchors[i];
      && a.nodeId < NAV_MAX_NODES && Gate(s.peers[a.nodeId], now, LimitsOf(s.config)).NotRejected?
      && a == AnchorOf(a.nodeId, s.peers[a.nodeId], now, LimitsOf(s.config))
  {
    assert SelectionAt(s, now).anchors[i] in SelectionAt(s, now).anchors;
  }

  lemma SolverAnchorsPaired(num: Numerics, s: Core, now: uint32, allowSolve: bool, ops: seq<PeerOp>, config: Config)
    requires |s.peers| == NAV_MAX_NODES && SameRules(s.config, config)
    requires Bare(s.peers) == Bare(ApplyAll(EmptyTable(NAV_MAX_NODES), ops))
    ensures var call := CallOf(Decide(num, s, now, allowSolve));
      call.Some? ==> forall a <- call.value.anchors :: Paired(a, ops, config.ignoreAltitude)
  {
    var call := CallOf(Decide(num, s, now, allowSolve));
    if call.Some? {
      var anchors := SelectionAt(s, now).anchors;
      assert |call.value.anchors| == |anchors|;
      forall i | 0 <= i < |anchors|
        ensures Paired(call.value.anchors[i], ops, config.ignoreAltitude)
      {
        SelectedPassedGate(s, now, i);
        AnchorPaired(s.peers, ops, anchors[i].nodeId, now, LimitsOf(s.config), config.ignoreAltitude);
      }
    }
  }
}
