/** What the change counter knows of the solver's inputs: a solve skipped because "inputs are unchanged" has the
    anchors of the last call, and its target altitude under an exact condition. */
module CacheCoherence {
  import opened Words
  import opened NavTypes
  import opened AnchorSelection
  import opened NavState

  const CYCLE := TWO_32 - 1

  /** The generation counter after `marks` input changes. */
  function Advance(g: uint32, marks: nat): uint32 {
    if marks == 0 then g else NextGeneration(Advance(g, marks - 1))
  }

  /** The counter runs round 1, ..., 2^32 - 1, skipping zero. */
  lemma {:induction false} AdvanceCycles(g: uint32, marks: nat)
    requires g != 0 && marks < CYCLE
    ensures Advance(g, marks) == if g + marks <= CYCLE then g + marks else g + marks - CYCLE
  {
    if marks > 0 {
      AdvanceCycles(g, marks - 1);
    }
  }

  /** A solver call: its input, and whether its altitude was a fresh local one rather than the GNSS stand-in. */
  datatype Call = Call(input: SolveInput, fromLocal: bool)

  predicate LocalFresh(s: Core, now: uint32) {
    s.altitudePresent && AltitudeFresh(s.localAltitude, now, s.config.localAltitudeTtlMs)
  }

  /** The last solver call a history made. */
  function LastCall(num: Numerics, config: Config, events: seq<Event>): Option<Call> {
    if events == [] then None
    else
      var before, e := events[..|events| - 1], events[|events| - 1];
      var s := Run(num, Init(config), before);
      var call := Step(num, s, e).call;
      if call.Some? then Some(Call(call.value, LocalFresh(Absorb(s, e), e.now))) else LastCall(num, config, before)
  }

  /** The number of input changes counted since then. */
  function MarksSince(num: Numerics, config: Config, events: seq<Event>): nat {
    if events == [] then 0
    else
      var before := events[..|events| - 1];
      var s := Run(num, Init(config), before);
      var e := events[|events| - 1];
      if Step(num, s, e).call.Some? then 0
      else MarksSince(num, config, before) + if Bumps(s, e) then 1 else 0
  }

  /** What one peer contributes to the solver's input. */
  function Contribution(id: uint8, p: PeerState, ignoreAltitude: bool): TrilatAnchor {
    ToTrilat(Anchor(id, p.rangePosition.latE7, p.rangePosition.lonE7, p.rangePosition.altMm, p.rangeMm, p.rangeSigmaMm, 0.0),
             ignoreAltitude)
  }

  /** The contributions of nodes `0..n` but the local one, in node order. */
  function Contributions(peers: seq<PeerState>, n: nat, local: uint8, ignoreAltitude: bool): seq<TrilatAnchor>
    requires n <= |peers| <= 0x100
  {
    if n == 0 then []
    else Contributions(peers, n - 1, local, ignoreAltitude)
         + (if n - 1 == local then [] else [Contribution(n - 1, peers[n - 1], ignoreAltitude)])
  }

  /** The anchors the stored state amounts to. */
  function AnchorsNow(s: Core): seq<TrilatAnchor>
    requires |s.peers| == NAV_MAX_NODES
  {
    Contributions(s.peers, |s.peers|, s.config.localNodeId, s.config.ignoreAltitude)
  }

  /** The target altitude the stored state amounts to, taken from the local altitude or from the GNSS sample. */
  function TargetFrom(s: Core, local: bool): real {
    if s.config.ignoreAltitude then 0.0
    else (if local then s.localAltitude.altMm else s.localGnss.position.altMm) as real / 1000.0
  }

  /** Two tables hold the same ranged coordinates and know the same nodes. */
  ghost predicate SameRanges(a: seq<PeerState>, b: seq<PeerState>) {
    && |a| == |b|
    && forall i :: 0 <= i < |a| ==>
         && a[i].rangePosition == b[i].rangePosition && a[i].rangeMm == b[i].rangeMm
         && a[i].rangeSigmaMm == b[i].rangeSigmaMm && a[i].present == b[i].present
  }

  lemma {:induction false} SameContributions(a: seq<PeerState>, b: seq<PeerState>, n: nat, local: uint8, ignoreAltitude: bool)
    requires SameRanges(a, b) && n <= |a| <= 0x100
    ensures Contributions(a, n, local, ignoreAltitude) == Contributions(b, n, local, ignoreAltitude)
  {
    if n > 0 {
      SameContributions(a, b, n - 1, local, ignoreAltitude);
    }
  }

  lemma {:induction false} AnchorsKeepRanges(peers: seq<PeerState>, anchors: seq<Anchor>)
    ensures SameRanges(peers, NoteAnchors(peers, anchors))
  {
    if anchors != [] {
      AnchorsKeepRanges(peers, anchors[..|anchors| - 1]);
    }
  }

  lemma {:induction false} RejectedKeepRanges(peers: seq<PeerState>, ids: seq<uint8>, reasons: seq<RejectReason>)
    requires |ids| == |reasons|
    ensures SameRanges(peers, NoteRejected(peers, ids, reasons))
  {
    if ids != [] {
      RejectedKeepRanges(peers, ids[..|ids| - 1], reasons[..|ids| - 1]);
    }
  }

  lemma {:induction false} ResidualsKeepRanges(peers: seq<PeerState>, anchors: seq<Anchor>, residuals: seq<real>)
    requires |anchors| == |residuals|
    ensures SameRanges(peers, NoteResiduals(peers, anchors, residuals))
  {
    if anchors != [] {
      ResidualsKeepRanges(peers, anchors[..|anchors| - 1], residuals[..|anchors| - 1]);
    }
  }

  lemma SelectionKeepsRanges(peers: seq<PeerState>, sel: Selection, residuals: seq<real>)
    requires SelectionFits(sel)
    ensures SameRanges(peers, NoteSelection(peers, sel))
    ensures |sel.anchors| == |residuals| ==>
      SameRanges(peers, NoteResiduals(NoteSelection(peers, sel), sel.anchors, residuals))
  {
    var reset := ResetDiagnostics(peers);
    AnchorsKeepRanges(reset, sel.anchors);
    RejectedKeepRanges(NoteAnchors(reset, sel.anchors), sel.rejectedIds, sel.rejectedReasons);
    if |sel.anchors| == |residuals| {
      ResidualsKeepRanges(NoteSelection(peers, sel), sel.anchors, residuals);
    }
  }

  /** The anchors offered by nodes `0..n` but the local one, in node order. */
  function Offered(cands: seq<Candidate>, n: nat, local: uint8): seq<Anchor>
    requires n <= |cands| <= 0x100
  {
    if n == 0 then [] else Offered(cands, n - 1, local) + (if n - 1 == local then [] else [cands[n - 1].anchor])
  }

  /** While nothing was turned down, the selection is everything offered. */
  ghost predicate Counts(sel: Selection, offered: seq<Anchor>) {
    && |sel.anchors| + |sel.rejectedIds| == |offered|
    && (sel.rejectedIds == [] ==> sel.anchors == offered)
  }

  lemma ConsiderCounts(sel: Selection, offered: seq<Anchor>, cands: seq<Candidate>, n: nat, capacity: nat, local: uint8)
    requires n < |cands| <= 0x100 && capacity > 0 && Counts(sel, offered)
    ensures Counts(Consider(sel, cands, n, capacity, local),
                   offered + (if n == local then [] else [cands[n].anchor]))
  {
  }

  lemma {:induction false} SelectionCounts(cands: seq<Candidate>, n: nat, capacity: nat, local: uint8)
    requires n <= |cands| <= 0x100 && capacity > 0
    ensures Counts(Select(cands, n, capacity, local), Offered(cands, n, local))
    ensures |Offered(cands, n, local)| == if local < n then n - 1 else n
  {
    if n > 0 {
      SelectionCounts(cands, n - 1, capacity, local);
      ConsiderCounts(Select(cands, n - 1, capacity, local), Offered(cands, n - 1, local), cands, n - 1, capacity, local);
    }
  }

  lemma {:induction false} OfferedContributions(s: Core, now: uint32, n: nat)
    requires n <= |s.peers| == NAV_MAX_NODES
    ensures var offered := Offered(Candidates(s.peers, now, LimitsOf(s.config)), n, s.config.localNodeId);
      InputFor(offered, 0, s.config.ignoreAltitude).anchors
      == Contributions(s.peers, n, s.config.localNodeId, s.config.ignoreAltitude)
  {
    if n > 0 {
      OfferedContributions(s, now, n - 1);
      var cands := Candidates(s.peers, now, LimitsOf(s.config));
      var offered := Offered(cands, n, s.config.localNodeId);
      var before := Offered(cands, n - 1, s.config.localNodeId);
      if n - 1 != s.config.localNodeId {
        assert InputFor(offered, 0, s.config.ignoreAltitude).anchors
            == InputFor(before, 0, s.config.ignoreAltitude).anchors
               + [ToTrilat(cands[n - 1].anchor, s.config.ignoreAltitude)];
      }
    }
  }

  /** GNSS altitude never enters a solve, or altitude is ignored altogether. */
  predicate AltitudeIsLocal(c: Config) {
    !c.allowGnssAltitudeWhenDenied || c.ignoreAltitude
  }

  /** The call's input is what the stored state amounts to; GNSS altitude stands in only where that is allowed. */
  predicate IsInputNow(call: Call, s: Core)
    requires |s.peers| == NAV_MAX_NODES
  {
    && call.input.anchors == AnchorsNow(s) && call.input.targetAltM == TargetFrom(s, call.fromLocal)
    && (!call.fromLocal ==> s.config.forceDenied && s.config.allowGnssAltitudeWhenDenied)
  }

  /** Past all gates, the solver's input is exactly what the stored state amounts to: with one slot fewer than
      nodes, every other node must be selected, in node order. */
  lemma SolveInputIsNow(s: Core, now: uint32)
    requires |s.peers| == NAV_MAX_NODES && s.config.localNodeId < NAV_MAX_NODES
    requires !LocalUsable(s) && |SelectionAt(s, now).anchors| == NAV_TRILAT_ANCHOR_COUNT && ResolveAltitude(s, now).Some?
    ensures IsInputNow(
      Call(InputFor(SelectionAt(s, now).anchors, ResolveAltitude(s, now).value.altMm, s.config.ignoreAltitude),
           LocalFresh(s, now)), s)
    ensures exists p <- s.peers :: p.present
  {
    var cands := Candidates(s.peers, now, LimitsOf(s.config));
    var sel := SelectionAt(s, now);
    SelectionCounts(cands, |s.peers|, NAV_TRILAT_ANCHOR_COUNT, s.config.localNodeId);
    OfferedContributions(s, now, |s.peers|);
    var a := sel.anchors[0];
    assert a in sel.anchors;
    assert s.peers[a.nodeId].present;
    assert s.peers[a.nodeId] in s.peers;
  }

  /** What a refresh leaves alone. */
  lemma RefreshKeeps(num: Numerics, s: Core, now: uint32, allowSolve: bool)
    requires |s.peers| == NAV_MAX_NODES
    ensures var o := Refresh(num, s, now, allowSolve);
      && SameRanges(s.peers, o.core.peers) && o.core.config == s.config
      && o.core.generation == s.generation && o.core.localAltitude == s.localAltitude
      && o.core.altitudePresent == s.altitudePresent && o.core.localGnss == s.localGnss && o.core.gnssPresent == s.gnssPresent
      && o.core.lastGeneration == (if o.call.Some? then s.generation else s.lastGeneration)
  {
    if Decide(num, s, now, allowSolve).Judged? {
      RulingFacts(num, s, now);
    }
  }

  /** A solver call is made on what the stored state amounts to. */
  lemma RefreshCalls(num: Numerics, s: Core, now: uint32, allowSolve: bool)
    requires |s.peers| == NAV_MAX_NODES && s.config.localNodeId < NAV_MAX_NODES
    ensures var call := Refresh(num, s, now, allowSolve).call;
      call.Some? ==> IsInputNow(Call(call.value, LocalFresh(s, now)), s) && exists p <- s.peers :: p.present
  {
    if CallOf(Decide(num, s, now, allowSolve)).Some? {
      SolveInputIsNow(s, now);
    }
  }

  lemma RulingFacts(num: Numerics, s: Core, now: uint32)
    requires |s.peers| == NAV_MAX_NODES
    ensures var sel := SelectionAt(s, now);
      var ruling := Rule(num, s, now, sel);
      var r := Ruled(Noted(s, now, sel), s, now, sel, ruling);
      && SameRanges(s.peers, r.peers) && r.config == s.config && r.generation == s.generation
      && r.localAltitude == s.localAltitude && r.altitudePresent == s.altitudePresent
      && r.localGnss == s.localGnss && r.gnssPresent == s.gnssPresent
      && r.lastGeneration == (if ruling.Solved? || ruling.SolverFailed? then s.generation else s.lastGeneration)
      && r.lastOutcome == r.snapshot.solve.outcome
      && (r.lastOutcome.OutcomeSkippedUnchanged? <==> ruling.Unchanged?)
  {
    var sel := SelectionAt(s, now);
    match Rule(num, s, now, sel)
    case TooFewAnchors => SelectionKeepsRanges(s.peers, sel, []);
    case NoAltitude => SelectionKeepsRanges(s.peers, sel, []);
    case PoorGeometry(_, _) => SelectionKeepsRanges(s.peers, sel, []);
    case Unchanged => SelectionKeepsRanges(s.peers, sel, []);
    case SolverFailed(_, _, _) => SelectionKeepsRanges(s.peers, sel, []);
    case Solved(_, _, _, fix) => SelectionKeepsRanges(s.peers, sel, fix.residualsM);
  }

  /** An event that is not counted as an input change changes no solver input. */
  lemma UncountedIsUnchanged(s: Core, e: Event)
    requires |s.peers| == NAV_MAX_NODES && !Bumps(s, e)
    ensures SameRanges(s.peers, Absorb(s, e).peers) && AnchorsNow(Absorb(s, e)) == AnchorsNow(s)
  {
    assert SameRanges(s.peers, Absorb(s, e).peers);
    SameContributions(s.peers, Absorb(s, e).peers, |s.peers|, s.config.localNodeId, s.config.ignoreAltitude);
  }

  lemma UncountedKeepsTarget(s: Core, e: Event, local: bool)
    requires !Bumps(s, e) && (!local ==> s.config.forceDenied && s.config.allowGnssAltitudeWhenDenied)
    ensures Absorb(s, e).config == s.config && TargetFrom(Absorb(s, e), local) == TargetFrom(s, local)
  {
  }

  /** The cache invariant: with no change counted since the last call, its input is still the current one. */
  ghost predicate Coherent(s: Core, last: Option<Call>, marks: nat)
    requires |s.peers| == NAV_MAX_NODES
  {
    && (s.generation == 0 ==> forall p <- s.peers :: !p.present)
    && (last.None? ==> s.lastGeneration == 0)
    && (last.Some? ==>
          && s.lastGeneration != 0 && s.generation == Advance(s.lastGeneration, marks)
          && (marks == 0 ==> IsInputNow(last.value, s)))
  }

  lemma NobodyPresent(a: seq<PeerState>, b: seq<PeerState>)
    requires SameRanges(a, b) && forall p <- a :: !p.present
    ensures forall p <- b :: !p.present
  {
    forall i | 0 <= i < |b|
      ensures !b[i].present
    {
      assert a[i] in a;
    }
  }

  lemma AbsorbedConfig(s: Core, e: Event)
    ensures Absorb(s, e).config == s.config.(forceDenied := Absorb(s, e).config.forceDenied)
  {
    if e.ConfigEvent? {
      match e.command
      case CmdForceDenied(_) =>
      case CmdUseGnss =>
      case CmdNone =>
    }
  }

  lemma StoredConfig(s: Core, e: Event)
    ensures var c := Bump(Absorb(s, e), Bumps(s, e)).config;
      c == s.config.(forceDenied := c.forceDenied)
  {
    AbsorbedConfig(s, e);
  }

  lemma CoherentStore(s: Core, e: Event, last: Option<Call>, marks: nat)
    requires |s.peers| == NAV_MAX_NODES && Coherent(s, last, marks)
    ensures Coherent(Bump(Absorb(s, e), Bumps(s, e)), last, marks + if Bumps(s, e) then 1 else 0)
  {
    var stored := Absorb(s, e);
    assert stored.generation == s.generation && stored.lastGeneration == s.lastGeneration;
    if !Bumps(s, e) {
      UncountedIsUnchanged(s, e);
      if last.Some? && marks == 0 {
        UncountedKeepsTarget(s, e, last.value.fromLocal);
      }
      if s.generation == 0 {
        NobodyPresent(s.peers, stored.peers);
      }
    } else {
      assert NextGeneration(s.generation) != 0;
    }
  }

  lemma CoherentRefresh(num: Numerics, s: Core, now: uint32, allowSolve: bool, last: Option<Call>, marks: nat)
    requires |s.peers| == NAV_MAX_NODES && s.config.localNodeId < NAV_MAX_NODES
    requires Coherent(s, last, marks)
    ensures var o := Refresh(num, s, now, allowSolve);
      && o.core.config == s.config
      && (if o.call.Some? then Coherent(o.core, Some(Call(o.call.value, LocalFresh(s, now))), 0)
          else Coherent(o.core, last, marks))
  {
    var o := Refresh(num, s, now, allowSolve);
    RefreshKeeps(num, s, now, allowSolve);
    RefreshCalls(num, s, now, allowSolve);
    SameContributions(s.peers, o.core.peers, NAV_MAX_NODES, s.config.localNodeId, s.config.ignoreAltitude);
    if s.generation == 0 {
      NobodyPresent(s.peers, o.core.peers);
    }
  }

  lemma CoherentEvent(num: Numerics, s: Core, e: Event, last: Option<Call>, marks: nat)
    requires |s.peers| == NAV_MAX_NODES && s.config.localNodeId < NAV_MAX_NODES && !e.EventNone?
    requires Coherent(s, last, marks)
    ensures var o := Refresh(num, Bump(Absorb(s, e), Bumps(s, e)), e.now, e.Tick?);
      && o.core.config == s.config.(forceDenied := o.core.config.forceDenied)
      && (if o.call.Some? then Coherent(o.core, Some(Call(o.call.value, LocalFresh(Absorb(s, e), e.now))), 0)
          else Coherent(o.core, last, marks + if Bumps(s, e) then 1 else 0))
  {
    var stored := Bump(Absorb(s, e), Bumps(s, e));
    StoredConfig(s, e);
    CoherentStore(s, e, last, marks);
    CoherentRefresh(num, stored, e.now, e.Tick?, last, marks + if Bumps(s, e) then 1 else 0);
  }

  lemma CoherentStep(num: Numerics, s: Core, e: Event, last: Option<Call>, marks: nat)
    requires |s.peers| == NAV_MAX_NODES && s.config.localNodeId < NAV_MAX_NODES
    requires Coherent(s, last, marks)
    ensures var o := Step(num, s, e);
      && o.core.config == s.config.(forceDenied := o.core.config.forceDenied)
      && (if o.call.Some? then Coherent(o.core, Some(Call(o.call.value, LocalFresh(Absorb(s, e), e.now))), 0)
          else Coherent(o.core, last, marks + if Bumps(s, e) then 1 else 0))
  {
    if !e.EventNone? {
      CoherentEvent(num, s, e, last, marks);
    }
  }

  lemma HistoryGrows(num: Numerics, config: Config, events: seq<Event>)
    requires events != []
    ensures var before, e := events[..|events| - 1], events[|events| - 1];
      var o := Step(num, Run(num, Init(config), before), e);
      && Run(num, Init(config), events) == o.core
      && LastCall(num, config, events)
         == (if o.call.Some? then Some(Call(o.call.value, LocalFresh(Absorb(Run(num, Init(config), before), e), e.now)))
             else LastCall(num, config, before))
      && MarksSince(num, config, events)
         == if o.call.Some? then 0
            else MarksSince(num, config, before) + if Bumps(Run(num, Init(config), before), e) then 1 else 0
  {
  }

  /** In every reachable state the cache invariant holds of the history's last call and the changes since. */
  lemma {:induction false} EverCoherent(num: Numerics, config: Config, events: seq<Event>)
    requires config.localNodeId < NAV_MAX_NODES
    ensures var s := Run(num, Init(config), events);
      && s.config == config.(forceDenied := s.config.forceDenied)
      && Coherent(s, LastCall(num, config, events), MarksSince(num, config, events))
  {
    if events != [] {
      var before := events[..|events| - 1];
      EverCoherent(num, config, before);
      HistoryGrows(num, config, events);
      CoherentStep(num, Run(num, Init(config), before), events[|events| - 1],
                   LastCall(num, config, before), MarksSince(num, config, before));
    } else {
      InitiallyCoherent(config);
    }
  }

  lemma InitiallyCoherent(config: Config)
    ensures Coherent(Init(config), None, 0)
  {
  }

  lemma SkipIsUnchangedRuling(num: Numerics, s: Core, now: uint32)
    requires |s.peers| == NAV_MAX_NODES && Decide(num, s, now, true).Judged?
    requires Refresh(num, s, now, true).core.snapshot.solve.outcome.OutcomeSkippedUnchanged?
    ensures Rule(num, s, now, SelectionAt(s, now)).Unchanged?
  {
    RulingFacts(num, s, now);
  }

  lemma SkipMeansUnchanged(num: Numerics, s: Core, now: uint32)
    requires |s.peers| == NAV_MAX_NODES
    requires Refresh(num, s, now, true).core.snapshot.solve.outcome.OutcomeSkippedUnchanged?
    ensures !LocalUsable(s) && s.generation == s.lastGeneration
    ensures |SelectionAt(s, now).anchors| == NAV_TRILAT_ANCHOR_COUNT && ResolveAltitude(s, now).Some?
  {
    SkipIsUnchangedRuling(num, s, now);
  }

  /** A tick that reports unchanged inputs skipped a call on the very anchors of the last one. Its input would have been
      the same throughout exactly if altitude is ignored, or the local altitude is as fresh now as it was for that call,
      or the two altitudes agree; where GNSS altitude cannot enter a solve it always would. */
  lemma SkippedSolveIsRedundant(num: Numerics, config: Config, events: seq<Event>, now: uint32)
    requires config.localNodeId < NAV_MAX_NODES && MarksSince(num, config, events) < CYCLE
    requires Step(num, Run(num, Init(config), events), Tick(now)).core.snapshot.solve.outcome.OutcomeSkippedUnchanged?
    ensures var s := Absorb(Run(num, Init(config), events), Tick(now));
      var last := LastCall(num, config, events);
      && |SelectionAt(s, now).anchors| == NAV_TRILAT_ANCHOR_COUNT && ResolveAltitude(s, now).Some? && last.Some?
      && var skipped := InputFor(SelectionAt(s, now).anchors, ResolveAltitude(s, now).value.altMm, config.ignoreAltitude);
         && last.value.input.anchors == skipped.anchors
         && (last.value.input == skipped <==>
               || config.ignoreAltitude || LocalFresh(s, now) == last.value.fromLocal
               || s.localAltitude.altMm == s.localGnss.position.altMm)
         && (AltitudeIsLocal(config) ==> last.value.input == skipped)
  {
    var s := Absorb(Run(num, Init(config), events), Tick(now));
    var last, marks := LastCall(num, config, events), MarksSince(num, config, events);
    EverCoherent(num, config, events);
    CoherentStore(Run(num, Init(config), events), Tick(now), last, marks);
    SkipMeansUnchanged(num, s, now);
    SolveInputIsNow(s, now);
    if last.Some? {
      AdvanceCycles(s.lastGeneration, marks);
      SameTarget(s, LocalFresh(s, now), last.value.fromLocal);
    }
  }

  lemma SameTarget(s: Core, a: bool, b: bool)
    ensures TargetFrom(s, a) == TargetFrom(s, b) <==>
      s.config.ignoreAltitude || a == b || s.localAltitude.altMm == s.localGnss.position.altMm
  {
    if s.localAltitude.altMm != s.localGnss.position.altMm {
      AltitudesDiffer(s.localAltitude.altMm, s.localGnss.position.altMm);
    }
  }

  lemma AltitudesDiffer(a: int32, b: int32)
    requires a != b
    ensures a as real / 1000.0 != b as real / 1000.0
  {
  }

  // ---- what counts ------------------------------------------------------

  lemma NextDiffers(g: uint32)
    ensures NextGeneration(g) != g && NextGeneration(g) != 0
  {
  }

  /** Which events count as changes of the solver's inputs: beacons and ranges of known nodes, failed ranges unless the last
      one is retained, every command, a different altitude unless altitude is ignored, and a GNSS sample only where GNSS
      altitude can enter a solve. */
  lemma CountedExactly(num: Numerics, s: Core, e: Event)
    requires |s.peers| == NAV_MAX_NODES
    ensures Step(num, s, e).core.generation != s.generation <==>
      match e
      case EventNone(_) => false
      case Tick(_) => false
      case GnssEvent(_, _) => s.config.forceDenied && s.config.allowGnssAltitudeWhenDenied && !s.config.ignoreAltitude
      case AltitudeEvent(_, a) =>
        !s.config.ignoreAltitude && !(s.altitudePresent && s.localAltitude == a.(timestampMs := s.localAltitude.timestampMs))
      case BeaconEvent(_, b) => b.telemetry.nodeId < NAV_MAX_NODES
      case RangeEvent(_, r) => r.peerId < NAV_MAX_NODES
      case RangeFailEvent(_, _) => !s.config.retainLastRange
      case ConfigEvent(_, _) => true
  {
    NextDiffers(s.generation);
    if !e.EventNone? {
      RefreshKeeps(num, Bump(Absorb(s, e), Bumps(s, e)), e.now, e.Tick?);
    }
  }
}
