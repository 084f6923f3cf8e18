/** A history after which a skipped solve would not have repeated the last solver call. */
module CacheCounterexample {
  import opened Words
  import opened NavTypes
  import opened AnchorSelection
  import opened NavState
  import opened CacheCoherence
  import SolveProvenance

  /** Denied from the start, with GNSS altitude allowed to stand in for a local altitude older than a second. */
  const CONFIG :=
    Config(0, 0, 0, 1000, 0, 0, 0.0, 0.0, 0.0, 0.0, 0.0, 0.0, true, true, false, false)

  function PositionOf(id: uint8): Position {
    Position(id, id, 0)
  }

  function Beacon(id: uint8): Event {
    BeaconEvent(1000, PeerBeacon(
      PeerTelemetry(id, 1, 1000, PositionOf(id), Velocity(0, 0, 0), NAV_GNSS_FIX_3D, true, 9, 90, 0, 0, 0, 0, 0), 0, 0))
  }

  function Ranged(id: uint8): Event {
    RangeEvent(1000, RangeResult(id, 1, 1000, 5000, 0, 0, 0, true))
  }

  const ALTITUDE := LocalAltitude(1000, 1000, AltBaro, true)
  const SAMPLE :=
    GnssSample(0, 1500, Position(7, 7, 5000), Velocity(0, 0, 0), NAV_GNSS_FIX_3D, true, 9, 90, 0, 0)

  /** Three peers are heard and ranged, a barometer says 1 m, half a second later GNSS says 5 m, and a tick solves. */
  function EventAt(k: nat): Event
    requires 1 <= k <= 9
  {
    if k <= 3 then Beacon(k)
    else if k <= 6 then Ranged(k - 3)
    else if k == 7 then AltitudeEvent(1000, ALTITUDE)
    else if k == 8 then GnssEvent(1500, SAMPLE)
    else Tick(1500)
  }

  /** The first `k` of these events. */
  function Past(k: nat): (events: seq<Event>)
    requires k <= 9
    ensures |events| == k
  {
    if k == 0 then [] else Past(k - 1) + [EventAt(k)]
  }

  predicate Heard(p: PeerState, id: uint8) {
    p.present && p.gnssValid && p.fixType == NAV_GNSS_FIX_3D && p.position == PositionOf(id)
  }

  predicate Locked(p: PeerState, id: uint8) {
    Heard(p, id) && p.rangeValid && p.rangeMm == 5000 && p.rangePositionValid && p.rangePosition == PositionOf(id)
  }

  /** The first `heard` peers have sent a beacon, and the first `locked` of them have been ranged since. */
  predicate Stage(s: Core, heard: nat, locked: nat) {
    && s.config == CONFIG && |s.peers| == NAV_MAX_NODES
    && (forall i: uint8 :: 1 <= i <= heard && i < NAV_MAX_NODES ==> Heard(s.peers[i], i))
    && (forall i: uint8 :: 1 <= i <= locked && i < NAV_MAX_NODES ==> Locked(s.peers[i], i))
  }

  lemma QuietRefresh(num: Numerics, s: Core, now: uint32)
    requires |s.peers| == NAV_MAX_NODES && s.config.forceDenied
    ensures var o := Refresh(num, s, now, false);
      && o.call.None? && o.core.config == s.config && o.core.peers == s.peers
      && o.core.localAltitude == s.localAltitude && o.core.altitudePresent == s.altitudePresent
      && o.core.localGnss == s.localGnss && o.core.gnssPresent == s.gnssPresent
  {
    assert Decide(num, s, now, false) == KeepPrevious;
  }

  /** Under denial only a tick does more than store its event. */
  lemma QuietStep(num: Numerics, s: Core, e: Event)
    requires |s.peers| == NAV_MAX_NODES && s.config.forceDenied
    requires !e.Tick? && !e.ConfigEvent? && !e.EventNone?
    ensures var o, stored := Step(num, s, e), Absorb(s, e);
      && o.call.None? && o.core.config == s.config && o.core.peers == stored.peers
      && o.core.localAltitude == stored.localAltitude && o.core.altitudePresent == stored.altitudePresent
      && o.core.localGnss == stored.localGnss && o.core.gnssPresent == stored.gnssPresent
  {
    assert Absorb(s, e).config == s.config;
    QuietRefresh(num, Bump(Absorb(s, e), Bumps(s, e)), e.now);
  }

  lemma BeaconStage(num: Numerics, s: Core, id: uint8)
    requires 1 <= id < NAV_MAX_NODES && Stage(s, id - 1, 0)
    ensures Step(num, s, Beacon(id)).call.None? && Stage(Step(num, s, Beacon(id)).core, id, 0)
  {
    QuietStep(num, s, Beacon(id));
  }

  lemma RangeStage(num: Numerics, s: Core, id: uint8)
    requires 1 <= id < NAV_MAX_NODES && Stage(s, 3, id - 1)
    ensures Step(num, s, Ranged(id)).call.None? && Stage(Step(num, s, Ranged(id)).core, 3, id)
  {
    QuietStep(num, s, Ranged(id));
  }

  lemma Grown(num: Numerics, k: nat)
    requires 1 <= k <= 9
    ensures var o := Step(num, Run(num, Init(CONFIG), Past(k - 1)), EventAt(k));
      && Run(num, Init(CONFIG), Past(k)) == o.core
      && (o.call.None? ==> LastCall(num, CONFIG, Past(k)) == LastCall(num, CONFIG, Past(k - 1)))
  {
    assert Past(k)[..k - 1] == Past(k - 1) && Past(k)[k - 1] == EventAt(k);
    HistoryGrows(num, CONFIG, Past(k));
  }

  lemma NobodyHeard(num: Numerics)
    ensures Stage(Run(num, Init(CONFIG), Past(0)), 0, 0) && LastCall(num, CONFIG, Past(0)) == None
  {
    assert Run(num, Init(CONFIG), Past(0)) == Init(CONFIG);
  }

  lemma OneMoreHeard(num: Numerics, k: nat)
    requires 1 <= k <= 3
    requires Stage(Run(num, Init(CONFIG), Past(k - 1)), k - 1, 0) && LastCall(num, CONFIG, Past(k - 1)) == None
    ensures Stage(Run(num, Init(CONFIG), Past(k)), k, 0) && LastCall(num, CONFIG, Past(k)) == None
  {
    Grown(num, k);
    BeaconStage(num, Run(num, Init(CONFIG), Past(k - 1)), k);
  }

  lemma {:induction false} PeersHeard(num: Numerics, k: nat)
    requires k <= 3
    ensures Stage(Run(num, Init(CONFIG), Past(k)), k, 0) && LastCall(num, CONFIG, Past(k)) == None
  {
    if k == 0 {
      NobodyHeard(num);
    } else {
      PeersHeard(num, k - 1);
      OneMoreHeard(num, k);
    }
  }

  lemma OneMoreRanged(num: Numerics, k: nat)
    requires 4 <= k <= 6
    requires Stage(Run(num, Init(CONFIG), Past(k - 1)), 3, k - 4) && LastCall(num, CONFIG, Past(k - 1)) == None
    ensures Stage(Run(num, Init(CONFIG), Past(k)), 3, k - 3) && LastCall(num, CONFIG, Past(k)) == None
  {
    Grown(num, k);
    RangeStage(num, Run(num, Init(CONFIG), Past(k - 1)), k - 3);
  }

  lemma {:induction false} PeersRanged(num: Numerics, k: nat)
    requires 3 <= k <= 6
    ensures Stage(Run(num, Init(CONFIG), Past(k)), 3, k - 3) && LastCall(num, CONFIG, Past(k)) == None
  {
    if k == 3 {
      PeersHeard(num, k);
    } else {
      PeersRanged(num, k - 1);
      OneMoreRanged(num, k);
    }
  }

  /** All peers can be anchors, and both altitudes are stored. */
  predicate Primed(s: Core) {
    && Stage(s, 3, 3) && s.altitudePresent && s.localAltitude == ALTITUDE && s.gnssPresent && s.localGnss == SAMPLE
  }

  lemma AltitudeStored(num: Numerics, s: Core)
    requires Stage(s, 3, 3)
    ensures var o := Step(num, s, AltitudeEvent(1000, ALTITUDE));
      o.call.None? && Stage(o.core, 3, 3) && o.core.altitudePresent && o.core.localAltitude == ALTITUDE
  {
    QuietStep(num, s, AltitudeEvent(1000, ALTITUDE));
  }

  lemma SampleStored(num: Numerics, s: Core)
    requires Stage(s, 3, 3) && s.altitudePresent && s.localAltitude == ALTITUDE
    ensures var o := Step(num, s, GnssEvent(1500, SAMPLE)); o.call.None? && Primed(o.core)
  {
    QuietStep(num, s, GnssEvent(1500, SAMPLE));
  }

  lemma BeforeTheTick(num: Numerics)
    ensures Primed(Run(num, Init(CONFIG), Past(8))) && LastCall(num, CONFIG, Past(8)) == None
  {
    PeersRanged(num, 6);
    Grown(num, 7);
    AltitudeStored(num, Run(num, Init(CONFIG), Past(6)));
    Grown(num, 8);
    SampleStored(num, Run(num, Init(CONFIG), Past(7)));
  }

  /** All three peers can be anchors, denied or not. */
  predicate AllRanged(s: Core) {
    && s.config.(forceDenied := true) == CONFIG && |s.peers| == NAV_MAX_NODES
    && forall i: uint8 :: 1 <= i < NAV_MAX_NODES ==> Locked(s.peers[i], i)
  }

  lemma AllPass(s: Core, now: uint32, i: nat)
    requires AllRanged(s) && 1 <= i < NAV_MAX_NODES
    ensures Gate(s.peers[i], now, LimitsOf(CONFIG)).NotRejected?
  {
    assert Locked(s.peers[i], i);
  }

  /** The three peers are selected at any time. */
  lemma AllSelected(s: Core, now: uint32)
    requires AllRanged(s)
    ensures |SelectionAt(s, now).anchors| == NAV_TRILAT_ANCHOR_COUNT
  {
    var cands := Candidates(s.peers, now, LimitsOf(CONFIG));
    var sel := SelectionAt(s, now);
    SelectionCounts(cands, |s.peers|, NAV_TRILAT_ANCHOR_COUNT, 0);
    if sel.rejectedIds != [] {
      var id := sel.rejectedIds[0];
      assert id in sel.rejectedIds;
      assert sel.rejectedReasons[0] == cands[id].reason;
      AllPass(s, now, id);
    }
  }

  lemma NothingExpires(s: Core, now: uint32)
    requires s.config.(forceDenied := true) == CONFIG
    ensures Absorb(s, Tick(now)).peers == s.peers
  {
  }

  lemma TickPrimed(s: Core, now: uint32)
    requires Primed(s)
    ensures Primed(Absorb(s, Tick(now)))
  {
    NothingExpires(s, now);
  }

  /** Measurements stay through a refresh that leaves them alone. */
  lemma StillRanged(s: Core, r: Core)
    requires AllRanged(s) && r.config == s.config && SolveProvenance.Bare(r.peers) == SolveProvenance.Bare(s.peers)
    ensures AllRanged(r)
  {
    assert |SolveProvenance.Bare(r.peers)| == |r.peers|;
    forall i: uint8 | 1 <= i < NAV_MAX_NODES
      ensures Locked(r.peers[i], i)
    {
      assert Locked(s.peers[i], i);
      assert SolveProvenance.Bare(r.peers)[i] == SolveProvenance.Bare(s.peers)[i];
    }
  }

  /** What remains of a primed state after a refresh that leaves the peers' measurements alone. */
  lemma StillPrimed(s: Core, r: Core)
    requires Primed(s) && r.config == s.config && SolveProvenance.Bare(r.peers) == SolveProvenance.Bare(s.peers)
    requires r.localAltitude == s.localAltitude && r.altitudePresent == s.altitudePresent
    requires r.localGnss == s.localGnss && r.gnssPresent == s.gnssPresent
    ensures Primed(r)
  {
    StillRanged(s, r);
  }

  /** While changes are pending and the local altitude is fresh, the tick calls the solver. */
  lemma FirstTickCalls(num: Numerics, s: Core)
    requires Primed(s) && s.generation != s.lastGeneration && forall a :: num.area(a) >= 0.0
    ensures Step(num, s, Tick(1500)).call.Some? && LocalFresh(Absorb(s, Tick(1500)), 1500)
    ensures Primed(Step(num, s, Tick(1500)).core)
    ensures var r := Step(num, s, Tick(1500)).core; r.generation == r.lastGeneration
  {
    var stored := Absorb(s, Tick(1500));
    TickPrimed(s, 1500);
    AllSelected(stored, 1500);
    RefreshKeeps(num, stored, 1500, true);
    SolveProvenance.BareRefresh(num, stored, 1500, true);
    StillPrimed(stored, Refresh(num, stored, 1500, true).core);
  }

  /** Past all gates, with nothing pending, the solve is skipped. */
  lemma UnchangedSkips(num: Numerics, s: Core, now: uint32)
    requires |s.peers| == NAV_MAX_NODES && !LocalUsable(s) && s.config.solveIntervalMs == 0
    requires |SelectionAt(s, now).anchors| == NAV_TRILAT_ANCHOR_COUNT && ResolveAltitude(s, now).Some?
    requires num.area(SelectionAt(s, now).anchors) >= s.config.minTriangleAreaM2 && s.generation == s.lastGeneration
    ensures Refresh(num, s, now, true).core.snapshot.solve.outcome.OutcomeSkippedUnchanged?
  {
    RulingFacts(num, s, now);
  }

  /** With nothing pending and the local altitude aged out, the tick skips. */
  lemma SecondTickSkips(num: Numerics, s: Core)
    requires Primed(s) && s.generation == s.lastGeneration && forall a :: num.area(a) >= 0.0
    ensures Step(num, s, Tick(2200)).core.snapshot.solve.outcome.OutcomeSkippedUnchanged?
    ensures !LocalFresh(Absorb(s, Tick(2200)), 2200)
  {
    TickPrimed(s, 2200);
    AllSelected(Absorb(s, Tick(2200)), 2200);
    UnchangedSkips(num, Absorb(s, Tick(2200)), 2200);
  }

  lemma ChangesArePending(num: Numerics)
    ensures var s := Run(num, Init(CONFIG), Past(8)); s.generation != s.lastGeneration
  {
    var s := Run(num, Init(CONFIG), Past(8));
    BeforeTheTick(num);
    EverCoherent(num, CONFIG, Past(8));
    assert Heard(s.peers[1], 1);
    assert s.peers[1] in s.peers;
  }

  lemma AfterTheCall(num: Numerics)
    requires forall a :: num.area(a) >= 0.0
    ensures var s := Run(num, Init(CONFIG), Past(9));
      Primed(s) && s.generation == s.lastGeneration && LastCall(num, CONFIG, Past(9)) != None
    ensures MarksSince(num, CONFIG, Past(9)) == 0
    ensures LastCall(num, CONFIG, Past(9)).value.fromLocal
  {
    assert Past(9)[..8] == Past(8) && Past(9)[8] == EventAt(9);
    BeforeTheTick(num);
    ChangesArePending(num);
    FirstTickCalls(num, Run(num, Init(CONFIG), Past(8)));
    HistoryGrows(num, CONFIG, Past(9));
  }

  /** After this history a tick reports unchanged inputs and skips, although the call it skips differs from the last
      one: the 1 m altitude of that call has aged out, and the 5 m GNSS altitude would have taken its place. */
  lemma SkippedSolveDiffers(num: Numerics)
    requires forall a :: num.area(a) >= 0.0
    ensures var s := Run(num, Init(CONFIG), Past(9));
      && Step(num, s, Tick(2200)).core.snapshot.solve.outcome.OutcomeSkippedUnchanged?
      && LastCall(num, CONFIG, Past(9)).Some?
      && var stored := Absorb(s, Tick(2200));
         && ResolveAltitude(stored, 2200).Some?
         && LastCall(num, CONFIG, Past(9)).value.input
            != InputFor(SelectionAt(stored, 2200).anchors, ResolveAltitude(stored, 2200).value.altMm, false)
  {
    AfterTheCall(num);
    SecondTickSkips(num, Run(num, Init(CONFIG), Past(9)));
    SkippedSolveIsRedundant(num, CONFIG, Past(9), 2200);
    TickPrimed(Run(num, Init(CONFIG), Past(9)), 2200);
  }
}
