/** A core denied GNSS from the start publishes nothing that depends on what its GNSS receiver says. */
module NonInterference {
  import opened Words
  import opened NavTypes
  import opened AnchorSelection
  import opened NavState

  /** The state with the local GNSS sample and its displayed evidence blanked out. */
  function Masked(s: Core): Core {
    s.(localGnss := ZERO_SAMPLE, snapshot := s.snapshot.(gnss := NO_EVIDENCE))
  }

  predicate Shielded(c: Config) {
    c.forceDenied && !c.allowGnssAltitudeWhenDenied
  }

  /** No command in this event lifts denial. */
  predicate KeepsDenied(e: Event) {
    !(e.ConfigEvent? && (e.command.CmdUseGnss? || (e.command.CmdForceDenied? && !e.command.enabled)))
  }

  /** The same event, except that a GNSS sample may have any content. */
  predicate SameButGnss(e: Event, f: Event) {
    e == f || (e.GnssEvent? && f.GnssEvent? && e.now == f.now)
  }

  lemma MaskedDecision(num: Numerics, s: Core, now: uint32, allowSolve: bool)
    requires |s.peers| == NAV_MAX_NODES && Shielded(s.config)
    ensures Decide(num, Masked(s), now, allowSolve) == Decide(num, s, now, allowSolve)
    ensures !Decide(num, s, now, allowSolve).UseGnss?
  {
    assert SelectionAt(Masked(s), now) == SelectionAt(s, now);
  }

  lemma MaskedRefused(s: Core, t: Core, sn: Snapshot, tn: Snapshot, d: Diagnostics, reason: RejectReason, now: uint32)
    requires Masked(s) == Masked(t) && sn.(gnss := tn.gnss) == tn
    ensures Masked(Refused(s, sn, d, reason, now)) == Masked(Refused(t, tn, d, reason, now))
  {
  }

  lemma MaskedAnswered(s: Core, t: Core, sn: Snapshot, tn: Snapshot, d: Diagnostics, anchors: seq<Anchor>, altMm: int32,
                       score: real, fix: SolveReply, now: uint32)
    requires Masked(s) == Masked(t) && sn.(gnss := tn.gnss) == tn
    requires fix.Fix? && |anchors| == NAV_TRILAT_ANCHOR_COUNT
    ensures Masked(Answered(s, sn, d, anchors, altMm, score, fix, now))
         == Masked(Answered(t, tn, d, anchors, altMm, score, fix, now))
  {
    assert s.peers == t.peers && s.config == t.config;
    var p, q := Placed(sn, d, anchors, altMm, score, fix), Placed(tn, d, anchors, altMm, score, fix);
    assert p.(gnss := q.gnss) == q;
    assert Graded(p, score, s.config).(gnss := q.gnss) == Graded(q, score, s.config);
  }

  lemma MaskedRuling(s: Core, now: uint32, sel: Selection, ruling: Ruling)
    requires SelectionFits(sel)
    requires ruling.Solved? ==> ruling.fix.Fix? && |sel.anchors| == NAV_TRILAT_ANCHOR_COUNT
    ensures var m := Masked(s);
      Masked(Ruled(Noted(m, now, sel), m, now, sel, ruling)) == Masked(Ruled(Noted(s, now, sel), s, now, sel, ruling))
  {
    var m := Masked(s);
    var d := WithSelection(CLEARED, sel);
    var blank, mblank := Blank(s, now), Blank(m, now);
    var noted, mnoted := Noted(s, now, sel), Noted(m, now, sel);
    var tried, mtried := noted.(lastGeneration := s.generation), mnoted.(lastGeneration := s.generation);
    match ruling
    case TooFewAnchors => MaskedRefused(mnoted, noted, mblank, blank, d, NotEnoughAnchors, now);
    case NoAltitude => MaskedRefused(mnoted, noted, mblank, blank, d, MissingLocalAltitude, now);
    case PoorGeometry(altitude, area) =>
      MaskedRefused(mnoted, noted, mblank, blank, AltitudeDiag(d, altitude, area, s.config), BadGeometry, now);
    case Unchanged =>
    case SolverFailed(altitude, area, _) =>
      MaskedRefused(mtried, tried, mblank, blank, AltitudeDiag(d, altitude, area, s.config), TrilaterationFailed, now);
    case Solved(altitude, area, _, fix) =>
      MaskedAnswered(mtried, tried, mblank, blank, AltitudeDiag(d, altitude, area, s.config), sel.anchors,
                     altitude.altMm, GeometryScore(area, s.config), fix, now);
  }

  lemma MaskedSettle(s: Core, now: uint32, v: Verdict)
    requires v.Judged? ==> SelectionFits(v.sel)
    requires v.Judged? && v.ruling.Solved? ==> v.ruling.fix.Fix? && |v.sel.anchors| == NAV_TRILAT_ANCHOR_COUNT
    requires !v.UseGnss?
    ensures Masked(Settle(Masked(s), now, v)) == Masked(Settle(s, now, v))
  {
    if v.Judged? {
      MaskedRuling(s, now, v.sel, v.ruling);
    }
  }

  lemma MaskedRefresh(num: Numerics, s: Core, now: uint32, allowSolve: bool)
    requires |s.peers| == NAV_MAX_NODES && Shielded(s.config)
    ensures var o, m := Refresh(num, s, now, allowSolve), Refresh(num, Masked(s), now, allowSolve);
      Masked(m.core) == Masked(o.core) && m.call == o.call
  {
    MaskedDecision(num, s, now, allowSolve);
    MaskedSettle(s, now, Decide(num, s, now, allowSolve));
  }

  lemma SourceAfterGrading(placed: Snapshot, score: real, c: Config)
    ensures !Graded(placed, score, c).source.SourceLocalGnss?
  {
  }

  lemma SourceAfterRuling(noted: Core, s: Core, now: uint32, sel: Selection, ruling: Ruling)
    requires SelectionFits(sel)
    requires ruling.Solved? ==> ruling.fix.Fix? && |sel.anchors| == NAV_TRILAT_ANCHOR_COUNT
    requires noted.config == s.config && !s.snapshot.source.SourceLocalGnss?
    ensures var r := Ruled(noted, s, now, sel, ruling);
      r.config == s.config && !r.snapshot.source.SourceLocalGnss?
  {
    var d := WithSelection(CLEARED, sel);
    match ruling
    case TooFewAnchors =>
    case NoAltitude =>
    case PoorGeometry(_, _) =>
    case Unchanged =>
    case SolverFailed(_, _, _) =>
    case Solved(altitude, area, _, fix) =>
      var score := GeometryScore(area, s.config);
      SourceAfterGrading(Placed(Blank(s, now), AltitudeDiag(d, altitude, area, s.config), sel.anchors,
                                altitude.altMm, score, fix), score, s.config);
  }

  lemma ShieldedRefresh(num: Numerics, s: Core, now: uint32, allowSolve: bool)
    requires |s.peers| == NAV_MAX_NODES && Shielded(s.config) && !s.snapshot.source.SourceLocalGnss?
    ensures var r := Refresh(num, s, now, allowSolve).core;
      r.config == s.config && !r.snapshot.source.SourceLocalGnss?
  {
    var v := Decide(num, s, now, allowSolve);
    match v
    case UseGnss => assert false;
    case KeepPrevious =>
    case KeepForCadence(_) =>
    case Judged(sel, ruling) => SourceAfterRuling(Noted(s, now, sel), s, now, sel, ruling);
  }

  /** What an event stores, seen through the mask, does not depend on a GNSS sample's content. */
  lemma MaskedStore(s: Core, t: Core, e: Event, f: Event)
    requires Shielded(s.config) && Masked(s) == Masked(t) && SameButGnss(e, f) && KeepsDenied(e)
    ensures var s', t' := Bump(Absorb(s, e), Bumps(s, e)), Bump(Absorb(t, f), Bumps(t, f));
      Masked(s') == Masked(t') && s'.config == s.config && s'.snapshot == s.snapshot
  {
    assert s.peers == t.peers && s.config == t.config && s.localAltitude == t.localAltitude;
  }

  /** One step shows the GNSS sample nowhere but in the evidence the mask blanks. */
  lemma MaskedStep(num: Numerics, s: Core, t: Core, e: Event, f: Event)
    requires |s.peers| == |t.peers| == NAV_MAX_NODES && Shielded(s.config)
    requires Masked(s) == Masked(t) && SameButGnss(e, f) && KeepsDenied(e)
    ensures Masked(Step(num, s, e).core) == Masked(Step(num, t, f).core)
    ensures Step(num, s, e).call == Step(num, t, f).call
    ensures !s.snapshot.source.SourceLocalGnss? ==>
      Step(num, s, e).core.config == s.config && !Step(num, s, e).core.snapshot.source.SourceLocalGnss?
  {
    if !e.EventNone? {
      var s', t' := Bump(Absorb(s, e), Bumps(s, e)), Bump(Absorb(t, f), Bumps(t, f));
      MaskedStore(s, t, e, f);
      MaskedRefresh(num, s', e.now, e.Tick?);
      MaskedRefresh(num, t', f.now, f.Tick?);
      if !s.snapshot.source.SourceLocalGnss? {
        ShieldedRefresh(num, s', e.now, e.Tick?);
      }
    }
  }

  /** Two histories that differ only in what the GNSS receiver said leave equal states, up to that receiver's own
      evidence, make equal solver calls, and never publish a GNSS solution. */
  lemma {:induction false} GnssCannotInterfere(num: Numerics, config: Config, events: seq<Event>, others: seq<Event>)
    requires Shielded(config) && |events| == |others|
    requires forall i :: 0 <= i < |events| ==> SameButGnss(events[i], others[i]) && KeepsDenied(events[i])
    ensures var s, t := Run(num, Init(config), events), Run(num, Init(config), others);
      && Masked(s) == Masked(t) && s.config == config
      && !s.snapshot.source.SourceLocalGnss? && !t.snapshot.source.SourceLocalGnss?
    ensures events != [] ==>
      Step(num, Run(num, Init(config), events[..|events| - 1]), events[|events| - 1]).call
      == Step(num, Run(num, Init(config), others[..|others| - 1]), others[|others| - 1]).call
  {
    if events != [] {
      var n := |events| - 1;
      GnssCannotInterfere(num, config, events[..n], others[..n]);
      var s, t := Run(num, Init(config), events[..n]), Run(num, Init(config), others[..n]);
      MaskedStep(num, s, t, events[n], others[n]);
    }
  }
}
