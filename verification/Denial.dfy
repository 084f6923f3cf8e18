/** Switching denial on in mid-run: a GNSS solution outlives the command until the first tick past the cadence gate. */
module Denial {
  import opened Words
  import opened NavTypes
  import opened AnchorSelection
  import opened NavState
  import NonInterference
  import opened CacheCoherence
  import SolveCadence

  /** A tick of `rest`, run after `start`, has passed the cadence gate. */
  predicate HasPassed(num: Numerics, config: Config, start: seq<Event>, rest: seq<Event>) {
    rest != []
    && var k := |rest| - 1;
       || HasPassed(num, config, start, rest[..k])
       || SolveCadence.Passes(num, Run(num, Init(config), start + rest[..k]), rest[k])
  }

  /** The history ends with the command that switches denial on. */
  predicate EndsInDenial(start: seq<Event>) {
    && start != [] && start[|start| - 1].ConfigEvent?
    && start[|start| - 1].command == CmdForceDenied(true)
  }

  /** A pass that decides anew publishes no GNSS solution, whatever was published before. */
  lemma FreshRulingSource(noted: Core, s: Core, now: uint32, sel: Selection, ruling: Ruling)
    requires SelectionFits(sel) && !ruling.Unchanged?
    requires ruling.Solved? ==> ruling.fix.Fix? && |sel.anchors| == NAV_TRILAT_ANCHOR_COUNT
    requires noted.config == s.config
    ensures !Ruled(noted, s, now, sel, ruling).snapshot.source.SourceLocalGnss?
  {
  }

  /** Right after the command, and later until the first pass, a change is counted since the last call. */
  predicate ChangePending(s: Core, config: Config, marks: nat) {
    s.config == config.(forceDenied := true) && s.generation != 0 && marks >= 1
  }

  lemma DenialPends(num: Numerics, config: Config, start: seq<Event>)
    requires EndsInDenial(start) && config.localNodeId < NAV_MAX_NODES
    ensures ChangePending(Run(num, Init(config), start), config, MarksSince(num, config, start))
  {
    var before, e := start[..|start| - 1], start[|start| - 1];
    var s := Run(num, Init(config), before);
    HistoryGrows(num, config, start);
    EverCoherent(num, config, before);
    RefreshKeeps(num, Bump(Absorb(s, e), Bumps(s, e)), e.now, false);
  }

  lemma DenialKept(num: Numerics, s: Core, e: Event)
    requires |s.peers| == NAV_MAX_NODES && s.config.forceDenied && s.generation != 0 && NonInterference.KeepsDenied(e)
    ensures var o := Step(num, s, e);
      && o.core.config == s.config && o.core.generation != 0
      && (!SolveCadence.Passes(num, s, e) ==> o.call.None?)
  {
    if !e.EventNone? {
      RefreshKeeps(num, Bump(Absorb(s, e), Bumps(s, e)), e.now, e.Tick?);
    }
  }

  /** The first pass does not find its inputs unchanged. */
  lemma FirstPassDecides(num: Numerics, s: Core, e: Event, config: Config, last: Option<Call>, marks: nat)
    requires |s.peers| == NAV_MAX_NODES && ChangePending(s, config, marks) && marks < CYCLE
    requires Coherent(s, last, marks) && SolveCadence.Passes(num, s, e)
    ensures e.Tick? && !Step(num, s, e).core.snapshot.source.SourceLocalGnss?
  {
    if last.Some? {
      AdvanceCycles(s.lastGeneration, marks);
    }
    var stored := Absorb(s, e);
    var sel := SelectionAt(stored, e.now);
    FreshRulingSource(Noted(stored, e.now, sel), stored, e.now, sel, Rule(num, stored, e.now, sel));
  }

  /** Under denial nothing but a GNSS solution kept from before can be one. */
  lemma StaysDenied(num: Numerics, s: Core, e: Event)
    requires |s.peers| == NAV_MAX_NODES && s.config.forceDenied && NonInterference.KeepsDenied(e)
    requires !s.snapshot.source.SourceLocalGnss?
    ensures !Step(num, s, e).core.snapshot.source.SourceLocalGnss?
  {
    if !e.EventNone? {
      DeniedRefresh(num, Bump(Absorb(s, e), Bumps(s, e)), e.now, e.Tick?);
    }
  }

  lemma DeniedRefresh(num: Numerics, s: Core, now: uint32, allowSolve: bool)
    requires |s.peers| == NAV_MAX_NODES && s.config.forceDenied && !s.snapshot.source.SourceLocalGnss?
    ensures !Refresh(num, s, now, allowSolve).core.snapshot.source.SourceLocalGnss?
  {
    match Decide(num, s, now, allowSolve)
    case KeepPrevious =>
    case KeepForCadence(_) =>
    case Judged(sel, ruling) => NonInterference.SourceAfterRuling(Noted(s, now, sel), s, now, sel, ruling);
  }

  /** Short of a pass, a denied core shows the source it showed before. */
  lemma NoPassKeepsSource(num: Numerics, s: Core, e: Event)
    requires |s.peers| == NAV_MAX_NODES && s.config.forceDenied && NonInterference.KeepsDenied(e)
    requires !SolveCadence.Passes(num, s, e)
    ensures Step(num, s, e).core.snapshot.source == s.snapshot.source
  {
    if !e.EventNone? {
      UnjudgedKeepsSource(num, Bump(Absorb(s, e), Bumps(s, e)), e.now, e.Tick?);
    }
  }

  lemma UnjudgedKeepsSource(num: Numerics, s: Core, now: uint32, allowSolve: bool)
    requires |s.peers| == NAV_MAX_NODES && s.config.forceDenied && !Decide(num, s, now, allowSolve).Judged?
    ensures Refresh(num, s, now, allowSolve).core.snapshot.source == s.snapshot.source
  {
  }

  /** So does the command that switches denial on. */
  lemma CommandKeepsSource(num: Numerics, s: Core, e: Event)
    requires |s.peers| == NAV_MAX_NODES && e.ConfigEvent? && e.command == CmdForceDenied(true)
    ensures Step(num, s, e).core.snapshot.source == s.snapshot.source
  {
  }

  /** A GNSS solution was showing when the command came. */
  predicate GnssShownBefore(num: Numerics, config: Config, start: seq<Event>)
    requires start != []
  {
    Run(num, Init(config), start[..|start| - 1]).snapshot.source.SourceLocalGnss?
  }

  /** What holds after `rest`: the configuration is denied, a GNSS solution shows exactly if one showed when the command
      came and nothing has passed since, and until the first pass the command still counts as a change of inputs. */
  predicate DeniedAfter(num: Numerics, config: Config, start: seq<Event>, rest: seq<Event>)
    requires start != []
  {
    var s := Run(num, Init(config), start + rest);
    && s.config == config.(forceDenied := true) && s.generation != 0
    && (s.snapshot.source.SourceLocalGnss?
        <==> !HasPassed(num, config, start, rest) && GnssShownBefore(num, config, start))
    && (!HasPassed(num, config, start, rest) ==> ChangePending(s, config, MarksSince(num, config, start + rest)))
  }

  /** Up to the first pass, no more changes gather than the change counter can tell apart. */
  predicate ChangesBounded(num: Numerics, config: Config, start: seq<Event>, rest: seq<Event>) {
    forall i :: 0 <= i <= |rest| && !HasPassed(num, config, start, rest[..i]) ==>
      MarksSince(num, config, start + rest[..i]) < CYCLE
  }

  lemma EarlierBounded(num: Numerics, config: Config, start: seq<Event>, rest: seq<Event>, k: nat)
    requires k <= |rest| && ChangesBounded(num, config, start, rest)
    ensures ChangesBounded(num, config, start, rest[..k])
    ensures !HasPassed(num, config, start, rest[..k]) ==> MarksSince(num, config, start + rest[..k]) < CYCLE
  {
    var shorter := rest[..k];
    forall i | 0 <= i <= |shorter| && !HasPassed(num, config, start, shorter[..i])
      ensures MarksSince(num, config, start + shorter[..i]) < CYCLE
    {
      assert shorter[..i] == rest[..i];
    }
  }

  /** Once denial has been switched on and is not lifted, the core's configuration is denied, and its snapshot is a GNSS
      solution if and only if one was showing when the command came and no tick has passed the cadence gate since. Until
      that pass the command itself counts as a change of inputs, so the pass cannot keep the old snapshot. */
  lemma {:induction false} DenialTakesHold(num: Numerics, config: Config, start: seq<Event>, rest: seq<Event>)
    requires EndsInDenial(start) && config.localNodeId < NAV_MAX_NODES
    requires forall e <- rest :: NonInterference.KeepsDenied(e)
    requires ChangesBounded(num, config, start, rest)
    ensures var s := Run(num, Init(config), start + rest);
      && s.config == config.(forceDenied := true)
      && (s.snapshot.source.SourceLocalGnss?
          <==> !HasPassed(num, config, start, rest) && GnssShownBefore(num, config, start))
    ensures DeniedAfter(num, config, start, rest)
    decreases |rest|
  {
    if rest == [] {
      assert start + rest == start;
      DenialPends(num, config, start);
      CommandKeepsSource(num, Run(num, Init(config), start[..|start| - 1]), start[|start| - 1]);
    } else {
      var k := |rest| - 1;
      EarlierBounded(num, config, start, rest, k);
      DenialTakesHold(num, config, start, rest[..k]);
      OneMoreEvent(num, config, start, rest);
    }
  }

  lemma OneMoreEvent(num: Numerics, config: Config, start: seq<Event>, rest: seq<Event>)
    requires config.localNodeId < NAV_MAX_NODES && start != [] && rest != []
    requires NonInterference.KeepsDenied(rest[|rest| - 1])
    requires !HasPassed(num, config, start, rest[..|rest| - 1]) ==>
      MarksSince(num, config, start + rest[..|rest| - 1]) < CYCLE
    requires DeniedAfter(num, config, start, rest[..|rest| - 1])
    ensures DeniedAfter(num, config, start, rest)
  {
    var k := |rest| - 1;
    var before, e := start + rest[..k], rest[k];
    var s := Run(num, Init(config), before);
    assert (start + rest)[..|start + rest| - 1] == before && (start + rest)[|start + rest| - 1] == e;
    HistoryGrows(num, config, start + rest);
    DenialKept(num, s, e);
    if HasPassed(num, config, start, rest[..k]) {
      StaysDenied(num, s, e);
    } else if SolveCadence.Passes(num, s, e) {
      EverCoherent(num, config, before);
      FirstPassDecides(num, s, e, config, LastCall(num, config, before), MarksSince(num, config, before));
    } else {
      NoPassKeepsSource(num, s, e);
    }
  }

  lemma TwoEvents(num: Numerics, s: Core, first: Event, second: Event)
    requires |s.peers| == NAV_MAX_NODES
    ensures Run(num, s, [first]) == Step(num, s, first).core
    ensures Run(num, s, [first, second]) == Step(num, Step(num, s, first).core, second).core
  {
    assert [first][..0] == [] && [first, second][..1] == [first];
  }

  /** A GNSS solution does outlive the command: a usable sample followed by it leaves a denied core showing that fix. */
  lemma FixOutlivesCommand(num: Numerics, config: Config, sample: GnssSample, sampleMs: uint32, commandMs: uint32)
    requires !config.forceDenied && SampleIsUsable(sample)
    ensures var s := Run(num, Init(config), [GnssEvent(sampleMs, sample), ConfigEvent(commandMs, CmdForceDenied(true))]);
      && s.config.forceDenied && s.snapshot.source.SourceLocalGnss? && s.snapshot.position == sample.position
  {
    var first, second := GnssEvent(sampleMs, sample), ConfigEvent(commandMs, CmdForceDenied(true));
    TwoEvents(num, Init(config), first, second);
    FixPublished(num, Init(config), sample, sampleMs);
    CommandKeepsFix(num, Step(num, Init(config), first).core, commandMs);
  }

  lemma FixPublished(num: Numerics, s: Core, sample: GnssSample, now: uint32)
    requires |s.peers| == NAV_MAX_NODES && !s.config.forceDenied && SampleIsUsable(sample)
    ensures var r := Step(num, s, GnssEvent(now, sample)).core;
      r.snapshot.source.SourceLocalGnss? && r.snapshot.position == sample.position
  {
  }

  lemma CommandKeepsFix(num: Numerics, s: Core, now: uint32)
    requires |s.peers| == NAV_MAX_NODES
    ensures var r := Step(num, s, ConfigEvent(now, CmdForceDenied(true))).core;
      && r.config.forceDenied && r.snapshot.source == s.snapshot.source && r.snapshot.position == s.snapshot.position
  {
  }
}
