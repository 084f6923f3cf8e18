/** The solver gets its turn: exactly when a tick passes the cadence gate, and how many passes a stretch of time holds. */
module SolveLiveness {
  import opened Words
  import opened NavTypes
  import opened AnchorSelection
  import opened NavState
  import opened SolveCadence

  /** No local fix stands in the way, and the interval has elapsed since the last pass, if there was one. */
  predicate GateOpen(s: Core, now: uint32) {
    && (s.config.forceDenied || !s.localGnss.valid || s.localGnss.fixType < NAV_GNSS_FIX_3D)
    && (!s.solveRan || s.config.solveIntervalMs == 0 || Wrap32(now - s.lastSolveMs) >= s.config.solveIntervalMs)
  }

  /** The outcome a tick reports tells whether it reached anchor selection. */
  predicate Attempted(outcome: SolveOutcome) {
    outcome.OutcomeSolved? || outcome.OutcomeRejected? || outcome.OutcomeSkippedUnchanged?
  }

  lemma RuledOutcome(noted: Core, s: Core, now: uint32, sel: Selection, ruling: Ruling)
    requires SelectionFits(sel)
    requires ruling.Solved? ==> ruling.fix.Fix? && |sel.anchors| == NAV_TRILAT_ANCHOR_COUNT
    ensures Attempted(Ruled(noted, s, now, sel, ruling).snapshot.solve.outcome)
  {
  }

  lemma GateDecides(num: Numerics, s: Core, now: uint32)
    requires |s.peers| == NAV_MAX_NODES
    ensures Decide(num, s, now, true).Judged? <==> GateOpen(s, now)
    ensures !Decide(num, s, now, true).KeepPrevious?
  {
  }

  lemma JudgedOutcome(num: Numerics, s: Core, now: uint32)
    requires |s.peers| == NAV_MAX_NODES && Decide(num, s, now, true).Judged?
    ensures Attempted(Refresh(num, s, now, true).core.snapshot.solve.outcome)
  {
    var sel := SelectionAt(s, now);
    RuledOutcome(Noted(s, now, sel), s, now, sel, Rule(num, s, now, sel));
  }

  lemma KeptOutcome(num: Numerics, s: Core, now: uint32)
    requires |s.peers| == NAV_MAX_NODES
    requires Decide(num, s, now, true).UseGnss? || Decide(num, s, now, true).KeepForCadence?
    ensures !Attempted(Refresh(num, s, now, true).core.snapshot.solve.outcome)
  {
  }

  lemma RefreshOutcome(num: Numerics, s: Core, now: uint32)
    requires |s.peers| == NAV_MAX_NODES
    ensures var r := Refresh(num, s, now, true).core;
      if GateOpen(s, now) then r.solveRan && r.lastSolveMs == now && Attempted(r.snapshot.solve.outcome)
      else
        && r.solveRan == s.solveRan && r.lastSolveMs == s.lastSolveMs && !Attempted(r.snapshot.solve.outcome)
        && Refresh(num, s, now, true).call.None?
  {
    GateDecides(num, s, now);
    RefreshTiming(num, s, now, true);
    if GateOpen(s, now) {
      JudgedOutcome(num, s, now);
    } else {
      KeptOutcome(num, s, now);
    }
  }

  /** A tick restarts the cadence and reports an attempt if and only if the gate is open; otherwise it leaves the cadence
      alone, makes no call, and reports the local fix or a skip for cadence. */
  lemma TickPassesExactly(num: Numerics, s: Core, now: uint32)
    requires |s.peers| == NAV_MAX_NODES
    ensures var o := Step(num, s, Tick(now));
      if GateOpen(s, now) then
        o.core.solveRan && o.core.lastSolveMs == now && Attempted(o.core.snapshot.solve.outcome)
      else
        && o.core.solveRan == s.solveRan && o.core.lastSolveMs == s.lastSolveMs && o.call.None?
        && !Attempted(o.core.snapshot.solve.outcome)
  {
    RefreshOutcome(num, Absorb(s, Tick(now)), now);
  }

  lemma GateIsTiming(num: Numerics, s: Core, now: uint32)
    requires |s.peers| == NAV_MAX_NODES
    ensures Passes(num, s, Tick(now)) <==> GateOpen(s, now)
  {
  }

  // ---- how often --------------------------------------------------------

  /** A tick comes after `t` and no later than `period` after it. */
  predicate TickWithin(history: seq<Stamped>, t: int, period: nat) {
    exists i :: 0 <= i < |history| && history[i].event.Tick? && t < history[i].at <= t + period
  }

  /** Every stretch of `period` from `begin` on, until `end`, has a tick. */
  ghost predicate TicksWithin(history: seq<Stamped>, begin: int, end: int, period: nat) {
    forall t: int {:trigger TickWithin(history, t, period)} ::
      begin <= t && t + period <= end ==> TickWithin(history, t, period)
  }

  /** No local fix may be used anywhere in the history. */
  predicate FixNeverUsable(num: Numerics, s: Core, history: seq<Stamped>)
    requires |s.peers| == NAV_MAX_NODES
    decreases |history|
  {
    history == []
    || (!LocalUsable(Absorb(s, history[0].event)) && FixNeverUsable(num, Step(num, s, history[0].event).core, history[1..]))
  }

  /** The gate is open from `due` to `end`: the last pass, at true time `last`, is an interval or more before `due`, and
      the clock does not come round to it before `end`. */
  predicate DueFrom(s: Core, last: int, due: int, end: int) {
    s.solveRan ==>
      && s.lastSolveMs == Wrap32(last) && last + s.config.solveIntervalMs <= due && end < last + TWO_32
  }

  lemma AgeIs(now: int, past: int)
    requires past <= now < past + TWO_32
    ensures Wrap32(Wrap32(now) - Wrap32(past)) == now - past
  {
    SinceUnwrapped(now, past);
  }

  lemma DueTickPasses(num: Numerics, s: Core, at: nat, last: int, due: int, end: int)
    requires |s.peers| == NAV_MAX_NODES && !LocalUsable(s) && DueFrom(s, last, due, end) && due <= at <= end
    ensures Passes(num, s, Tick(Wrap32(at)))
  {
    if s.solveRan {
      AgeIs(at, last);
    }
    GateIsTiming(num, s, Wrap32(at));
  }

  lemma TickLeft(history: seq<Stamped>, t: int, period: nat)
    requires history != [] && TickWithin(history, t, period)
    requires !(history[0].event.Tick? && t < history[0].at)
    ensures TickWithin(history[1..], t, period)
  {
    var i :| 0 <= i < |history| && history[i].event.Tick? && t < history[i].at <= t + period;
    assert history[1..][i - 1] == history[i];
  }

  /** Ticks after the head of a history are still within reach once it is gone. */
  lemma TicksLeft(history: seq<Stamped>, begin: int, begin': int, end: int, period: nat)
    requires history != [] && TicksWithin(history, begin, end, period) && begin <= begin'
    requires !(history[0].event.Tick? && begin' < history[0].at)
    ensures TicksWithin(history[1..], begin', end, period)
  {
    forall t: int {:trigger TickWithin(history[1..], t, period)} | begin' <= t && t + period <= end
      ensures TickWithin(history[1..], t, period)
    {
      TickLeft(history, t, period);
    }
  }

  lemma InOrderRest(history: seq<Stamped>)
    requires history != [] && InOrder(history)
    ensures InOrder(history[1..])
  {
  }

  /** The first tick that is due comes in time. */
  lemma HeadInTime(history: seq<Stamped>, due: int, end: int, period: nat)
    requires history != [] && InOrder(history) && TicksWithin(history, due, end, period) && due + period <= end
    ensures history[0].at <= due + period
  {
    assert TickWithin(history, due, period);
  }

  /** What is known at one moment of a history: the gate is open from `due` on, and ticks keep coming. */
  ghost predicate OnTime(num: Numerics, s: Core, history: seq<Stamped>, last: int, due: int, end: int, period: nat)
    requires |s.peers| == NAV_MAX_NODES
  {
    && InOrder(history) && FixNeverUsable(num, s, history) && DueFrom(s, last, due, end)
    && TicksWithin(history, due, end, period)
    && (forall i :: 0 <= i < |history| ==> history[i].at <= end < history[i].at + TWO_32)
  }

  lemma HeadNeverUsable(num: Numerics, s: Core, history: seq<Stamped>)
    requires |s.peers| == NAV_MAX_NODES && history != [] && FixNeverUsable(num, s, history)
    ensures !LocalUsable(Absorb(s, history[0].event))
    ensures FixNeverUsable(num, Step(num, s, history[0].event).core, history[1..])
  {
  }

  lemma TickNotUsable(s: Core, now: uint32)
    requires !LocalUsable(Absorb(s, Tick(now)))
    ensures !LocalUsable(s)
  {
  }

  /** A head that does not pass leaves everything as it was. */
  lemma OnTimeWithoutPass(
    num: Numerics, s: Core, history: seq<Stamped>, last: int, due: int, end: int, period: nat)
    requires |s.peers| == NAV_MAX_NODES && history != [] && OnTime(num, s, history, last, due, end, period)
    requires !Passes(num, s, history[0].event)
    ensures OnTime(num, Step(num, s, history[0].event).core, history[1..], last, due, end, period)
  {
    var e := history[0].event;
    StepTiming(num, s, e);
    HeadNeverUsable(num, s, history);
    InOrderRest(history);
    if e.Tick? && due < history[0].at {
      TickNotUsable(s, e.now);
      DueTickPasses(num, s, history[0].at, last, due, end);
    }
    TicksLeft(history, due, due, end, period);
  }

  /** When the next pass is due after one at `at`. */
  function NextDue(at: nat, interval: nat, due: int): int {
    if at + interval < due then due else at + interval
  }

  /** A head that passes makes the next pass due an interval later. */
  lemma OnTimeAfterPass(
    num: Numerics, s: Core, history: seq<Stamped>, last: int, due: int, end: int, period: nat)
    requires |s.peers| == NAV_MAX_NODES && history != [] && OnTime(num, s, history, last, due, end, period)
    requires Passes(num, s, history[0].event)
    ensures var at := history[0].at;
      OnTime(num, Step(num, s, history[0].event).core, history[1..], at,
             NextDue(at, s.config.solveIntervalMs, due), end, period)
  {
    StepTiming(num, s, history[0].event);
    HeadNeverUsable(num, s, history);
    InOrderRest(history);
    TicksLeft(history, due, NextDue(history[0].at, s.config.solveIntervalMs, due), end, period);
  }

  function Rounds(count: nat, round: nat): nat {
    if count == 0 then 0 else Rounds(count - 1, round) + round
  }

  lemma {:induction false} RoundsAre(count: nat, round: nat)
    ensures Rounds(count, round) == count * round
  {
    if count > 0 {
      RoundsAre(count - 1, round);
    }
  }

  /** If the gate is due and `count` rounds of an interval and a tick period fit before `end`, so many passes come. */
  lemma {:induction false} PassesComeAround(
    num: Numerics, s: Core, history: seq<Stamped>, last: int, due: int, end: int, period: nat, count: nat)
    requires |s.peers| == NAV_MAX_NODES && OnTime(num, s, history, last, due, end, period)
    requires count > 0 ==> due + period + Rounds(count - 1, s.config.solveIntervalMs + period) <= end
    ensures |PassTimes(num, s, history)| >= count
    decreases |history|
  {
    if count > 0 {
      TickToCome(history, due, end, period);
      var next := Step(num, s, history[0].event).core;
      StepTiming(num, s, history[0].event);
      PassTimesFirst(num, s, history);
      if Passes(num, s, history[0].event) {
        HeadInTime(history, due, end, period);
        OnTimeAfterPass(num, s, history, last, due, end, period);
        PassesComeAround(num, next, history[1..], history[0].at,
                         NextDue(history[0].at, s.config.solveIntervalMs, due), end, period, count - 1);
      } else {
        OnTimeWithoutPass(num, s, history, last, due, end, period);
        PassesComeAround(num, next, history[1..], last, due, end, period, count);
      }
    }
  }

  lemma TickToCome(history: seq<Stamped>, due: int, end: int, period: nat)
    requires TicksWithin(history, due, end, period) && due + period <= end
    ensures history != []
  {
    assert TickWithin(history, due, period);
  }

  lemma RoundsFit(span: nat, round: nat)
    requires round > 0 && span / round > 0
    ensures Rounds(span / round - 1, round) + round <= span
  {
    RoundsAre(span / round, round);
  }

  /** While no local fix is usable and ticks come at most `period` apart, a stretch of history of length T shorter than a
      clock round makes at least T / (interval + period) passes. The last pass before it, if any, must be less than a
      clock round before its end. */
  lemma PassesKeepComing(
    num: Numerics, s: Core, history: seq<Stamped>, last: int, begin: int, end: int, period: nat)
    requires |s.peers| == NAV_MAX_NODES && InOrder(history) && FixNeverUsable(num, s, history)
    requires forall i :: 0 <= i < |history| ==> begin <= history[i].at <= end
    requires begin <= end < begin + TWO_32 && TicksWithin(history, begin, end, period)
    requires s.solveRan ==> s.lastSolveMs == Wrap32(last) && last <= begin && end < last + TWO_32
    requires s.config.solveIntervalMs + period > 0
    ensures |PassTimes(num, s, history)| >= (end - begin) / (s.config.solveIntervalMs + period)
  {
    var count := (end - begin) / (s.config.solveIntervalMs + period);
    if count > 0 {
      RoundsFit(end - begin, s.config.solveIntervalMs + period);
    }
    RoundsComeAround(num, s, history, last, begin, end, period, count);
  }

  lemma RoundsComeAround(
    num: Numerics, s: Core, history: seq<Stamped>, last: int, begin: int, end: int, period: nat, count: nat)
    requires |s.peers| == NAV_MAX_NODES && InOrder(history) && FixNeverUsable(num, s, history)
    requires forall i :: 0 <= i < |history| ==> begin <= history[i].at <= end
    requires begin <= end < begin + TWO_32 && TicksWithin(history, begin, end, period)
    requires s.solveRan ==> s.lastSolveMs == Wrap32(last) && last <= begin && end < last + TWO_32
    requires count > 0 ==>
      Rounds(count - 1, s.config.solveIntervalMs + period) + s.config.solveIntervalMs + period <= end - begin
    ensures |PassTimes(num, s, history)| >= count
  {
    assert OnTime(num, s, history, last, begin + s.config.solveIntervalMs, end, period);
    PassesComeAround(num, s, history, last, begin + s.config.solveIntervalMs, end, period, count);
  }
}
