/** Two histories after which a skipped solve republishes something other than the last solver call's answer. */
module RepublishCounterexample {
  import opened Words
  import opened NavTypes
  import opened NavState
  import opened CacheCoherence
  import opened CacheCounterexample
  import opened RepublishedAnswer
  import SolveProvenance

  const NO_FIX_SAMPLE := SAMPLE.(valid := false)

  lemma OneMore(num: Numerics, events: seq<Event>, e: Event)
    ensures var s := Run(num, Init(CONFIG), events);
      && Run(num, Init(CONFIG), events + [e]) == Step(num, s, e).core
      && (LastCall(num, CONFIG, events).Some? ==> LastCall(num, CONFIG, events + [e]).Some?)
  {
    assert (events + [e])[..|events + [e]| - 1] == events;
    HistoryGrows(num, CONFIG, events + [e]);
  }

  /** A skip after a superseded answer does not republish the last call's. */
  lemma SkipPublishesOther(num: Numerics, events: seq<Event>, now: uint32)
    requires LastCall(num, CONFIG, events).Some? && Superseded(Run(num, Init(CONFIG), events).snapshot)
    requires Step(num, Run(num, Init(CONFIG), events), Tick(now)).core.snapshot.solve.outcome.OutcomeSkippedUnchanged?
    ensures AfterLastCall(num, CONFIG, events).Some?
    ensures !SameAnswer(Step(num, Run(num, Init(CONFIG), events), Tick(now)).core.snapshot,
                        AfterLastCall(num, CONFIG, events).value)
  {
    AnswerStands(num, CONFIG, events);
    SkipKeepsAnswer(num, Run(num, Init(CONFIG), events), now);
  }

  /** Three ranged peers, a local altitude of 1 m and a GNSS sample, with nothing pending. */
  predicate Poised(s: Core, denied: bool) {
    && AllRanged(s) && s.config.forceDenied == denied && s.generation == s.lastGeneration
    && s.altitudePresent && s.gnssPresent
  }

  lemma PoisedAfterCall(num: Numerics)
    requires forall a :: num.area(a) >= 0.0
    ensures Poised(Run(num, Init(CONFIG), Past(9)), true)
  {
    AfterTheCall(num);
  }

  /** A poised state whose local altitude is fresh skips, and shows what it showed before. */
  lemma PoisedSkips(num: Numerics, s: Core, denied: bool, now: uint32)
    requires Poised(s, denied) && LocalFresh(s, now) && !LocalUsable(s) && forall a :: num.area(a) >= 0.0
    ensures Step(num, s, Tick(now)).core.snapshot.solve.outcome.OutcomeSkippedUnchanged?
    ensures SameAnswer(Step(num, s, Tick(now)).core.snapshot, s.snapshot)
  {
    var stored := Absorb(s, Tick(now));
    NothingExpires(s, now);
    AllSelected(stored, now);
    UnchangedSkips(num, stored, now);
    SkipKeepsAnswer(num, s, now);
  }

  // ---- a refusal outlives its reason ------------------------------------

  const RENEWED := LocalAltitude(1000, 2600, AltBaro, true)

  /** With both altitudes aged out the tick refuses to solve. */
  lemma AltitudesAgedOut(num: Numerics, s: Core)
    requires Primed(s) && s.generation == s.lastGeneration
    ensures var r := Step(num, s, Tick(2600)).core;
      && Poised(r, true) && r.localAltitude == ALTITUDE && r.snapshot.reject.MissingLocalAltitude?
  {
    var stored := Absorb(s, Tick(2600));
    NothingExpires(s, 2600);
    AllSelected(stored, 2600);
    RefreshKeeps(num, stored, 2600, true);
    SolveProvenance.BareRefresh(num, stored, 2600, true);
    StillRanged(stored, Refresh(num, stored, 2600, true).core);
  }

  /** The same altitude measured again is stored, but does not count as a change. */
  lemma AltitudeRenewed(num: Numerics, s: Core)
    requires Poised(s, true) && s.localAltitude == ALTITUDE && s.snapshot.reject.MissingLocalAltitude?
    ensures var r := Step(num, s, AltitudeEvent(2600, RENEWED)).core;
      && Poised(r, true) && r.localAltitude == RENEWED && r.snapshot.reject.MissingLocalAltitude?
  {
    assert !Bumps(s, AltitudeEvent(2600, RENEWED));
    RefreshKeeps(num, Absorb(s, AltitudeEvent(2600, RENEWED)), 2600, false);
    QuietStep(num, s, AltitudeEvent(2600, RENEWED));
  }

  function RenewedHistory(): seq<Event> {
    Past(9) + [Tick(2600)] + [AltitudeEvent(2600, RENEWED)]
  }

  lemma RefusedAndRenewed(num: Numerics)
    requires forall a :: num.area(a) >= 0.0
    ensures var s := Run(num, Init(CONFIG), RenewedHistory());
      Poised(s, true) && s.localAltitude == RENEWED && s.snapshot.reject.MissingLocalAltitude?
    ensures LastCall(num, CONFIG, RenewedHistory()).Some?
  {
    AfterTheCall(num);
    OneMore(num, Past(9), Tick(2600));
    AltitudesAgedOut(num, Run(num, Init(CONFIG), Past(9)));
    OneMore(num, Past(9) + [Tick(2600)], AltitudeEvent(2600, RENEWED));
    AltitudeRenewed(num, Run(num, Init(CONFIG), Past(9) + [Tick(2600)]));
  }

  /** After the solve, both altitudes age out and a tick refuses; the altitude is measured again with the same value.
      The next tick finds its inputs unchanged and republishes the refusal for a missing altitude, with a fresh one at
      hand. */
  lemma RefusalOutlivesReason(num: Numerics)
    requires forall a :: num.area(a) >= 0.0
    ensures var events := RenewedHistory();
      var s := Run(num, Init(CONFIG), events);
      var published := Step(num, s, Tick(2600)).core.snapshot;
      && published.solve.outcome.OutcomeSkippedUnchanged? && published.reject.MissingLocalAltitude?
      && ResolveAltitude(Absorb(s, Tick(2600)), 2600) == Some(RENEWED)
      && AfterLastCall(num, CONFIG, events).Some?
      && !SameAnswer(published, AfterLastCall(num, CONFIG, events).value)
  {
    RefusedAndRenewed(num);
    PoisedSkips(num, Run(num, Init(CONFIG), RenewedHistory()), true, 2600);
    SkipPublishesOther(num, RenewedHistory(), 2600);
  }

  // ---- a local fix outlives its receiver --------------------------------

  /** The receiver loses its fix and denial is lifted: two counted changes. */
  lemma FixLostUnderDenial(num: Numerics, s: Core)
    requires Primed(s) && s.generation == s.lastGeneration
    ensures var r := Step(num, s, GnssEvent(1510, NO_FIX_SAMPLE)).core;
      && Stage(r, 3, 3) && r.altitudePresent && r.localAltitude == ALTITUDE && r.gnssPresent
      && r.localGnss == NO_FIX_SAMPLE
      && r.generation == NextGeneration(s.generation) && r.lastGeneration == s.lastGeneration
  {
    var e := GnssEvent(1510, NO_FIX_SAMPLE);
    QuietStep(num, s, e);
    RefreshKeeps(num, Bump(Absorb(s, e), true), 1510, false);
  }

  lemma DenialLifted(num: Numerics, s: Core)
    requires Stage(s, 3, 3) && s.localGnss == NO_FIX_SAMPLE
    ensures var r := Step(num, s, ConfigEvent(1520, CmdUseGnss)).core;
      && AllRanged(r) && !r.config.forceDenied && r.localGnss == NO_FIX_SAMPLE && r.gnssPresent == s.gnssPresent
      && r.altitudePresent == s.altitudePresent && r.localAltitude == s.localAltitude
      && r.generation == NextGeneration(s.generation) && r.lastGeneration == s.lastGeneration
  {
    var e := ConfigEvent(1520, CmdUseGnss);
    var stored := Bump(Absorb(s, e), true);
    assert stored.peers == s.peers && stored.config == CONFIG.(forceDenied := false);
    RefreshKeeps(num, stored, 1520, false);
    SolveProvenance.BareRefresh(num, stored, 1520, false);
    assert AllRanged(stored);
    StillRanged(stored, Refresh(num, stored, 1520, false).core);
  }

  lemma TwoChangesShow(g: uint32)
    ensures NextGeneration(NextGeneration(g)) != g
  {
  }

  /** With the change pending, the tick calls the solver. */
  lemma SolvedUndenied(num: Numerics, s: Core)
    requires AllRanged(s) && !s.config.forceDenied && s.localGnss == NO_FIX_SAMPLE && s.gnssPresent
    requires s.altitudePresent && s.localAltitude == ALTITUDE
    requires s.generation != s.lastGeneration && forall a :: num.area(a) >= 0.0
    ensures var o := Step(num, s, Tick(1530));
      && o.call.Some? && Poised(o.core, false) && o.core.localAltitude == ALTITUDE && o.core.localGnss == NO_FIX_SAMPLE
  {
    var stored := Absorb(s, Tick(1530));
    NothingExpires(s, 1530);
    AllSelected(stored, 1530);
    RefreshKeeps(num, stored, 1530, true);
    SolveProvenance.BareRefresh(num, stored, 1530, true);
    StillRanged(stored, Refresh(num, stored, 1530, true).core);
  }

  /** A GNSS sample is no counted change while denial is off; a usable one is published, an unusable one leaves what was
      published. */
  lemma SampleTaken(num: Numerics, s: Core, now: uint32, sample: GnssSample)
    requires Poised(s, false)
    ensures var r := Step(num, s, GnssEvent(now, sample)).core;
      && Poised(r, false) && r.localAltitude == s.localAltitude && r.localGnss == sample
      && (if SampleIsUsable(sample) then r.snapshot.source.SourceLocalGnss? && r.snapshot.position == sample.position
          else SameAnswer(r.snapshot, s.snapshot))
  {
    var e := GnssEvent(now, sample);
    var stored := Absorb(s, e);
    assert !Bumps(s, e) && stored.config == s.config;
    RefreshKeeps(num, stored, now, false);
    SolveProvenance.BareRefresh(num, stored, now, false);
    assert AllRanged(stored);
    StillRanged(stored, Refresh(num, stored, now, false).core);
  }

  function UndeniedHistory(): seq<Event> {
    Past(9) + [GnssEvent(1510, NO_FIX_SAMPLE)] + [ConfigEvent(1520, CmdUseGnss)] + [Tick(1530)]
  }

  lemma UndeniedSolved(num: Numerics)
    requires forall a :: num.area(a) >= 0.0
    ensures var s := Run(num, Init(CONFIG), UndeniedHistory());
      Poised(s, false) && s.localAltitude == ALTITUDE && s.localGnss == NO_FIX_SAMPLE
    ensures LastCall(num, CONFIG, UndeniedHistory()).Some?
  {
    var first := Past(9) + [GnssEvent(1510, NO_FIX_SAMPLE)];
    var second := first + [ConfigEvent(1520, CmdUseGnss)];
    AfterTheCall(num);
    OneMore(num, Past(9), GnssEvent(1510, NO_FIX_SAMPLE));
    FixLostUnderDenial(num, Run(num, Init(CONFIG), Past(9)));
    OneMore(num, first, ConfigEvent(1520, CmdUseGnss));
    DenialLifted(num, Run(num, Init(CONFIG), first));
    TwoChangesShow(Run(num, Init(CONFIG), Past(9)).generation);
    OneMore(num, second, Tick(1530));
    SolvedUndenied(num, Run(num, Init(CONFIG), second));
  }

  function FrozenHistory(): seq<Event> {
    UndeniedHistory() + [GnssEvent(1540, SAMPLE)] + [GnssEvent(1550, NO_FIX_SAMPLE)]
  }

  /** Denial is off and the radio has solved; the receiver gets a fix and loses it again. The next tick finds its inputs
      unchanged and republishes the local fix, which is no longer usable, in place of the radio solution. */
  lemma FixOutlivesReceiver(num: Numerics)
    requires forall a :: num.area(a) >= 0.0
    ensures var events := FrozenHistory();
      var s := Run(num, Init(CONFIG), events);
      var published := Step(num, s, Tick(1560)).core.snapshot;
      && published.solve.outcome.OutcomeSkippedUnchanged?
      && published.source.SourceLocalGnss? && published.position == SAMPLE.position
      && !LocalUsable(Absorb(s, Tick(1560)))
      && AfterLastCall(num, CONFIG, events).Some?
      && !SameAnswer(published, AfterLastCall(num, CONFIG, events).value)
  {
    var first := UndeniedHistory() + [GnssEvent(1540, SAMPLE)];
    UndeniedSolved(num);
    OneMore(num, UndeniedHistory(), GnssEvent(1540, SAMPLE));
    SampleTaken(num, Run(num, Init(CONFIG), UndeniedHistory()), 1540, SAMPLE);
    OneMore(num, first, GnssEvent(1550, NO_FIX_SAMPLE));
    SampleTaken(num, Run(num, Init(CONFIG), first), 1550, NO_FIX_SAMPLE);
    PoisedSkips(num, Run(num, Init(CONFIG), FrozenHistory()), false, 1560);
    SkipPublishesOther(num, FrozenHistory(), 1560);
  }
}
