/** The solver is never called more often than the configured interval allows, clock wrap or not. */
module SolveCadence {
  import opened Words
  import opened NavTypes
  import opened AnchorSelection
  import opened NavState

  /** An event with the true time it happened at; the core sees that time on its wrapping clock. */
  datatype Stamped = Stamped(at: nat, event: Event)

  predicate InOrder(history: seq<Stamped>) {
    && (forall i :: 0 <= i < |history| ==> history[i].event.now == Wrap32(history[i].at))
    && (forall i, j :: 0 <= i <= j < |history| ==> history[i].at <= history[j].at)
  }

  /** The event reaches anchor selection. */
  predicate Passes(num: Numerics, s: Core, e: Event)
    requires |s.peers| == NAV_MAX_NODES
  {
    !e.EventNone? && Decide(num, Bump(Absorb(s, e), Bumps(s, e)), e.now, e.Tick?).Judged?
  }

  /** The times of the passes through anchor selection, starting from any state. */
  function PassTimes(num: Numerics, s: Core, history: seq<Stamped>): seq<int>
    requires |s.peers| == NAV_MAX_NODES
    decreases |history|
  {
    if history == [] then []
    else (if Passes(num, s, history[0].event) then [history[0].at] else [])
         + PassTimes(num, Step(num, s, history[0].event).core, history[1..])
  }

  /** The number of solver calls, starting from any state. */
  function CallCount(num: Numerics, s: Core, history: seq<Stamped>): nat
    requires |s.peers| == NAV_MAX_NODES
    decreases |history|
  {
    if history == [] then 0
    else (if Step(num, s, history[0].event).call.Some? then 1 else 0)
         + CallCount(num, Step(num, s, history[0].event).core, history[1..])
  }

  lemma StoredTiming(s: Core, e: Event)
    ensures var r := Bump(Absorb(s, e), Bumps(s, e));
      && r.config.solveIntervalMs == s.config.solveIntervalMs
      && r.solveRan == s.solveRan && r.lastSolveMs == s.lastSolveMs
  {
  }

  lemma RefreshTiming(num: Numerics, s: Core, now: uint32, allowSolve: bool)
    requires |s.peers| == NAV_MAX_NODES
    ensures var v, o := Decide(num, s, now, allowSolve), Refresh(num, s, now, allowSolve);
      && o.core.config == s.config
      && (v.Judged? ==> allowSolve && o.core.solveRan && o.core.lastSolveMs == now)
      && (!v.Judged? ==> o.core.solveRan == s.solveRan && o.core.lastSolveMs == s.lastSolveMs && o.call.None?)
  {
    match Decide(num, s, now, allowSolve)
    case UseGnss =>
    case KeepPrevious =>
    case KeepForCadence(_) =>
    case Judged(sel, ruling) => RulingTiming(Noted(s, now, sel), s, now, sel, ruling);
  }

  lemma RulingTiming(noted: Core, s: Core, now: uint32, sel: Selection, ruling: Ruling)
    requires SelectionFits(sel)
    requires ruling.Solved? ==> ruling.fix.Fix? && |sel.anchors| == NAV_TRILAT_ANCHOR_COUNT
    ensures var r := Ruled(noted, s, now, sel, ruling);
      r.solveRan == noted.solveRan && r.lastSolveMs == noted.lastSolveMs && r.config == noted.config
  {
    match ruling
    case TooFewAnchors =>
    case NoAltitude =>
    case PoorGeometry(_, _) =>
    case Unchanged =>
    case SolverFailed(_, _, _) =>
    case Solved(_, _, _, _) =>
  }

  /** What one event does to the cadence: only a tick passes, only a pass calls, and a pass restarts the interval. */
  lemma StepTiming(num: Numerics, s: Core, e: Event)
    requires |s.peers| == NAV_MAX_NODES
    ensures var o := Step(num, s, e);
      && o.core.config.solveIntervalMs == s.config.solveIntervalMs
      && (if Passes(num, s, e) then
            && e.Tick? && o.core.solveRan && o.core.lastSolveMs == e.now
            && (s.solveRan && s.config.solveIntervalMs > 0
                ==> Since(e.now, s.lastSolveMs) >= s.config.solveIntervalMs)
          else
            && o.core.solveRan == s.solveRan && o.core.lastSolveMs == s.lastSolveMs && o.call.None?)
  {
    if !e.EventNone? {
      StoredTiming(s, e);
      RefreshTiming(num, Bump(Absorb(s, e), Bumps(s, e)), e.now, e.Tick?);
    }
  }

  /** Elapsed time on the wrapping clock never exceeds true elapsed time. */
  lemma ModularAgeIsLower(now: nat, past: nat)
    requires past <= now
    ensures Since(Wrap32(now), Wrap32(past)) <= now - past
  {
    var d := now - past;
    assert Since(Wrap32(now), Wrap32(past)) == d % TWO_32;
  }

  /** Consecutive times are at least `interval` apart, and lie between `first` and `last`. */
  predicate Spaced(times: seq<int>, interval: nat, first: int, last: int) {
    && (forall i :: 0 < i < |times| ==> times[i] - times[i - 1] >= interval)
    && (forall i :: 0 <= i < |times| ==> first <= times[i] <= last)
  }

  lemma {:induction false} SpacedSpan(times: seq<int>, interval: nat, first: int, last: int)
    requires times != [] && Spaced(times, interval, first, last)
    ensures (|times| - 1) * interval <= times[|times| - 1] - times[0]
  {
    if |times| > 1 {
      SpacedSpan(times[..|times| - 1], interval, first, last);
    }
  }

  lemma SpacedPrepend(earlier: int, time: int, times: seq<int>, interval: nat, last: int)
    requires earlier + interval <= time && Spaced([time] + times, interval, time, last)
    ensures Spaced([earlier] + ([time] + times), interval, earlier, last)
  {
    var all, tail := [earlier] + ([time] + times), [time] + times;
    assert tail[0] == time;
    assert forall i :: 0 <= i < |all| ==> all[i] == if i == 0 then earlier else tail[i - 1];
  }

  lemma SpacedWeaken(times: seq<int>, interval: nat, first: int, begin: int, last: int)
    requires Spaced(times, interval, first, last) && begin <= first
    ensures Spaced(times, interval, begin, last)
  {
  }

  lemma BoundFromSpacing(times: seq<int>, interval: nat, first: int, last: int, calls: nat)
    requires interval > 0 && first <= last && Spaced(times, interval, first, last) && calls <= |times|
    ensures calls <= 1 + (last - first) / interval
  {
    if times != [] {
      SpacedSpan(times, interval, first, last);
      QuotientBound(|times| - 1, interval, last - first);
    }
  }

  lemma InOrderAfterFirst(history: seq<Stamped>)
    requires InOrder(history) && history != []
    ensures InOrder(history[1..]) && history[0].event.now == Wrap32(history[0].at)
    ensures forall h <- history[1..] :: history[0].at <= h.at
  {
  }

  lemma PassTimesFirst(num: Numerics, s: Core, history: seq<Stamped>)
    requires |s.peers| == NAV_MAX_NODES && history != []
    ensures var later := PassTimes(num, Step(num, s, history[0].event).core, history[1..]);
      PassTimes(num, s, history) == if Passes(num, s, history[0].event) then [history[0].at] + later else later
  {
  }

  /** Passes that follow a pass at `last` keep the interval from it and from each other. */
  lemma {:induction false} SpacedAfter(num: Numerics, s: Core, history: seq<Stamped>, last: nat, end: nat)
    requires |s.peers| == NAV_MAX_NODES && s.config.solveIntervalMs > 0
    requires InOrder(history) && last <= end && s.solveRan && s.lastSolveMs == Wrap32(last)
    requires forall h <- history :: last <= h.at <= end
    ensures Spaced([last] + PassTimes(num, s, history), s.config.solveIntervalMs, last, end)
    decreases |history|
  {
    if history == [] {
      assert [last] + PassTimes(num, s, history) == [last];
    } else {
      var first, rest := history[0], history[1..];
      var next := Step(num, s, first.event).core;
      InOrderAfterFirst(history);
      PassTimesFirst(num, s, history);
      StepTiming(num, s, first.event);
      ModularAgeIsLower(first.at, last);
      if Passes(num, s, first.event) {
        SpacedAfter(num, next, rest, first.at, end);
        SpacedPrepend(last, first.at, PassTimes(num, next, rest), s.config.solveIntervalMs, end);
      } else {
        SpacedAfter(num, next, rest, last, end);
      }
    }
  }

  /** From any state, consecutive passes are at least the interval apart, though the clock wraps. */
  lemma {:induction false} PassesSpaced(num: Numerics, s: Core, history: seq<Stamped>, begin: nat, end: nat)
    requires |s.peers| == NAV_MAX_NODES && s.config.solveIntervalMs > 0 && InOrder(history)
    requires forall h <- history :: begin <= h.at <= end
    ensures Spaced(PassTimes(num, s, history), s.config.solveIntervalMs, begin, end)
    decreases |history|
  {
    if history != [] {
      var first, rest := history[0], history[1..];
      var next := Step(num, s, first.event).core;
      StepTiming(num, s, first.event);
      var later := PassTimes(num, next, rest);
      if Passes(num, s, first.event) {
        SpacedAfter(num, next, rest, first.at, end);
        SpacedWeaken([first.at] + later, s.config.solveIntervalMs, first.at, begin, end);
      } else {
        PassesSpaced(num, next, rest, begin, end);
        assert PassTimes(num, s, history) == later;
      }
    }
  }

  lemma {:induction false} CallsArePasses(num: Numerics, s: Core, history: seq<Stamped>)
    requires |s.peers| == NAV_MAX_NODES
    ensures CallCount(num, s, history) <= |PassTimes(num, s, history)|
    decreases |history|
  {
    if history != [] {
      StepTiming(num, s, history[0].event);
      CallsArePasses(num, Step(num, s, history[0].event).core, history[1..]);
    }
  }

  /** Any stretch of history of length T makes at most 1 + T / interval solver calls. */
  lemma SolverCallsBounded(num: Numerics, s: Core, history: seq<Stamped>)
    requires |s.peers| == NAV_MAX_NODES && s.config.solveIntervalMs > 0 && history != [] && InOrder(history)
    ensures CallCount(num, s, history)
         <= 1 + (history[|history| - 1].at - history[0].at) / s.config.solveIntervalMs
  {
    var begin, end := history[0].at, history[|history| - 1].at;
    CallsArePasses(num, s, history);
    PassesSpaced(num, s, history, begin, end);
    BoundFromSpacing(PassTimes(num, s, history), s.config.solveIntervalMs, begin, end, CallCount(num, s, history));
  }

  lemma QuotientBound(k: int, interval: int, span: int)
    requires interval > 0 && span >= 0 && k * interval <= span
    ensures k <= span / interval
  {
    var q := span / interval;
    assert (q + 1 - k) * interval == (q + 1) * interval - k * interval > 0;
  }
}
