/** What a score means: when a peer passes, how its score falls with age, and that selection keeps the freshest peers. */
module AnchorScore {
  import opened Words
  import opened NavTypes
  import opened Quality
  import opened AnchorSelection
  import opened NavState

  function TelemetryAge(p: PeerState, now: uint32): uint32 {
    Wrap32(now - p.lastTelemetryMs)
  }

  function RangeAge(p: PeerState, now: uint32): uint32 {
    Wrap32(now - p.lastRangeMs)
  }

  /** Both of the peer's reports are within their time to live; a time to live of zero never ends. */
  predicate InTime(p: PeerState, now: uint32, limits: Limits) {
    && (limits.telemetryTtlMs == 0 || TelemetryAge(p, now) <= limits.telemetryTtlMs)
    && (limits.rangeTtlMs == 0 || RangeAge(p, now) <= limits.rangeTtlMs)
  }

  predicate Sound(p: PeerState, limits: Limits) {
    && p.present && p.gnssValid && p.fixType >= NAV_GNSS_FIX_3D && p.rangeValid && p.rangeMm > 0
    && (limits.maxRangeSigmaMm == 0 || p.rangeSigmaMm <= limits.maxRangeSigmaMm)
  }

  predicate Placed(p: PeerState) {
    && p.rangePositionValid && p.rangePosition != ZERO_POSITION
    && -900000000 <= p.rangePosition.latE7 <= 900000000 && -1800000000 <= p.rangePosition.lonE7 <= 1800000000
  }

  /** The share of a time to live that is left. */
  function Left(age: uint32, ttl: uint32): real {
    if ttl == 0 then 1.0 else (ttl as real - age as real) / ttl as real
  }

  lemma DifferenceShare(a: real, t: real)
    requires t != 0.0
    ensures (t - a) / t == 1.0 - a / t
  {
    assert (t - a) / t == t / t - a / t;
  }

  lemma FreshnessIsLeft(age: uint32, ttl: uint32)
    requires ttl > 0 && age <= ttl
    ensures Freshness(age, ttl) == Left(age, ttl)
  {
    DifferenceShare(age as real, ttl as real);
  }

  /** A peer scores if and only if it is sound and in time, and its score is the product of what is left of its two times
      to live. */
  lemma ScoreMeans(p: PeerState, now: uint32, limits: Limits)
    ensures var score := ScoreOf(p, now, limits);
      && (score.reject.NotRejected? <==> Sound(p, limits) && InTime(p, now, limits))
      && score.total == (if score.reject.NotRejected?
                         then Left(TelemetryAge(p, now), limits.telemetryTtlMs) * Left(RangeAge(p, now), limits.rangeTtlMs)
                         else 0.0)
  {
    var t, r := limits.telemetryTtlMs, limits.rangeTtlMs;
    if Sound(p, limits) && InTime(p, now, limits) {
      if t > 0 {
        FreshnessIsLeft(TelemetryAge(p, now), t);
      }
      if r > 0 {
        FreshnessIsLeft(RangeAge(p, now), r);
      }
      ScoreProduct(p, now, limits);
    }
  }

  lemma ScoreProduct(p: PeerState, now: uint32, limits: Limits)
    requires Sound(p, limits) && InTime(p, now, limits)
    ensures var t, r := limits.telemetryTtlMs, limits.rangeTtlMs;
      ScoreOf(p, now, limits).total == (if t == 0 then 1.0 else Freshness(TelemetryAge(p, now), t))
                                       * (if r == 0 then 1.0 else Freshness(RangeAge(p, now), r))
  {
  }

  /** What is left lies between nothing and everything, and shrinks with age. */
  lemma LeftBounds(age: uint32, ttl: uint32)
    requires ttl == 0 || age <= ttl
    ensures 0.0 <= Left(age, ttl) <= 1.0
    ensures Left(age, ttl) == 1.0 <==> ttl == 0 || age == 0
    ensures Left(age, ttl) == 0.0 <==> ttl > 0 && age == ttl
  {
    if ttl > 0 {
      RatioBounds(ttl as real - age as real, ttl as real);
    }
  }

  lemma LeftShrinks(early: uint32, late: uint32, ttl: uint32)
    requires early <= late && (ttl == 0 || late <= ttl)
    ensures Left(early, ttl) >= Left(late, ttl)
    ensures ttl > 0 && early < late ==> Left(early, ttl) > Left(late, ttl)
  {
    if ttl > 0 {
      RatioOrder(ttl as real - late as real, ttl as real - early as real, ttl as real);
    }
  }

  lemma SignedProduct(x: real, y: real) returns (p: real)
    requires x >= 0.0 && y >= 0.0
    ensures p == x * y && p >= 0.0 && (x > 0.0 && y > 0.0 ==> p > 0.0)
  {
    p := x * y;
  }

  lemma ProductBounds(x: real, y: real)
    requires 0.0 <= x <= 1.0 && 0.0 <= y <= 1.0
    ensures 0.0 <= x * y <= 1.0 && (x * y == 1.0 <==> x == 1.0 && y == 1.0) && (x * y == 0.0 <==> x == 0.0 || y == 0.0)
  {
    var p := SignedProduct(x, y);
    var q := SignedProduct(x, 1.0 - y);
    var r := SignedProduct(1.0 - x, y);
    assert q == x - p && r == y - p;
  }

  /** A passing score lies in [0, 1]; it is 1 exactly for a peer heard and ranged just now, and 0 exactly when a time to
      live has run out to the last millisecond. */
  lemma ScoreBounds(p: PeerState, now: uint32, limits: Limits)
    requires ScoreOf(p, now, limits).reject.NotRejected?
    ensures var total := ScoreOf(p, now, limits).total;
      var t, r := limits.telemetryTtlMs, limits.rangeTtlMs;
      && 0.0 <= total <= 1.0
      && (total == 1.0 <==> (t == 0 || TelemetryAge(p, now) == 0) && (r == 0 || RangeAge(p, now) == 0))
      && (total == 0.0 <==> (t > 0 && TelemetryAge(p, now) == t) || (r > 0 && RangeAge(p, now) == r))
  {
    ScoreMeans(p, now, limits);
    SharesMultiply(TelemetryAge(p, now), limits.telemetryTtlMs, RangeAge(p, now), limits.rangeTtlMs);
  }

  lemma SharesMultiply(age: uint32, ttl: uint32, age': uint32, ttl': uint32)
    requires (ttl == 0 || age <= ttl) && (ttl' == 0 || age' <= ttl')
    ensures var product := Left(age, ttl) * Left(age', ttl');
      && 0.0 <= product <= 1.0
      && (product == 1.0 <==> (ttl == 0 || age == 0) && (ttl' == 0 || age' == 0))
      && (product == 0.0 <==> (ttl > 0 && age == ttl) || (ttl' > 0 && age' == ttl'))
  {
    LeftBounds(age, ttl);
    LeftBounds(age', ttl');
    ProductBounds(Left(age, ttl), Left(age', ttl'));
  }

  lemma ProductOrder(x: real, y: real, x': real, y': real)
    requires 0.0 <= x' <= x && 0.0 <= y' <= y
    ensures x' * y' <= x * y
    ensures (x' < x && y > 0.0) || (y' < y && x > 0.0) ==> x' * y' < x * y
  {
    var p := SignedProduct(x - x', y);
    var q := SignedProduct(x', y - y');
    var r := SignedProduct(x, y - y');
    var s := SignedProduct(x - x', y');
    assert x * y - x' * y' == p + q;
    assert x * y - x' * y' == r + s;
  }

  /** The first peer is no staler than the second on either count. */
  predicate NoStaler(p: PeerState, q: PeerState, now: uint32) {
    TelemetryAge(p, now) <= TelemetryAge(q, now) && RangeAge(p, now) <= RangeAge(q, now)
  }

  /** It is strictly fresher on a count that has a time to live, and has some of the other one left. */
  predicate Fresher(p: PeerState, q: PeerState, now: uint32, limits: Limits) {
    var t, r := limits.telemetryTtlMs, limits.rangeTtlMs;
    || (t > 0 && TelemetryAge(p, now) < TelemetryAge(q, now) && (r == 0 || RangeAge(p, now) < r))
    || (r > 0 && RangeAge(p, now) < RangeAge(q, now) && (t == 0 || TelemetryAge(p, now) < t))
  }

  /** Scores never grow with age, and fall strictly with each age that counts. */
  lemma ScoreFallsWithAge(p: PeerState, q: PeerState, now: uint32, limits: Limits)
    requires ScoreOf(p, now, limits).reject.NotRejected? && ScoreOf(q, now, limits).reject.NotRejected?
    requires NoStaler(p, q, now)
    ensures ScoreOf(p, now, limits).total >= ScoreOf(q, now, limits).total
    ensures Fresher(p, q, now, limits) ==> ScoreOf(p, now, limits).total > ScoreOf(q, now, limits).total
  {
    ScoreMeans(p, now, limits);
    ScoreMeans(q, now, limits);
    ProductFalls(TelemetryAge(p, now), TelemetryAge(q, now), limits.telemetryTtlMs,
                 RangeAge(p, now), RangeAge(q, now), limits.rangeTtlMs);
  }

  lemma ProductFalls(early: uint32, late: uint32, ttl: uint32, early': uint32, late': uint32, ttl': uint32)
    requires early <= late && (ttl == 0 || late <= ttl) && early' <= late' && (ttl' == 0 || late' <= ttl')
    ensures Left(early, ttl) * Left(early', ttl') >= Left(late, ttl) * Left(late', ttl')
    ensures ttl > 0 && early < late && (ttl' == 0 || early' < ttl') ==>
      Left(early, ttl) * Left(early', ttl') > Left(late, ttl) * Left(late', ttl')
    ensures ttl' > 0 && early' < late' && (ttl == 0 || early < ttl) ==>
      Left(early, ttl) * Left(early', ttl') > Left(late, ttl) * Left(late', ttl')
  {
    LeftShrinks(early, late, ttl);
    LeftShrinks(early', late', ttl');
    LeftBounds(early, ttl);
    LeftBounds(early', ttl');
    LeftBounds(late, ttl);
    LeftBounds(late', ttl');
    ProductOrder(Left(early, ttl), Left(early', ttl'), Left(late, ttl), Left(late', ttl'));
  }

  /** A peer can be an anchor if and only if it is sound, in time and placed, and scores the required minimum. */
  lemma GateMeans(p: PeerState, now: uint32, limits: Limits)
    ensures Gate(p, now, limits).NotRejected?
      <==> && Sound(p, limits) && InTime(p, now, limits) && Placed(p)
           && Left(TelemetryAge(p, now), limits.telemetryTtlMs) * Left(RangeAge(p, now), limits.rangeTtlMs)
              >= limits.minAnchorQuality
  {
    ScoreMeans(p, now, limits);
  }

  predicate TooOld(age: uint32, ttl: uint32) {
    ttl > 0 && age > ttl
  }

  predicate NoFix(p: PeerState) {
    !p.gnssValid || p.fixType < NAV_GNSS_FIX_3D
  }

  predicate NoRange(p: PeerState) {
    !p.rangeValid || p.rangeMm == 0
  }

  predicate TooSpread(p: PeerState, limits: Limits) {
    limits.maxRangeSigmaMm > 0 && p.rangeSigmaMm > limits.maxRangeSigmaMm
  }

  /** A peer that cannot be an anchor is turned down for the first thing wrong with it: not heard lately, not ranged lately,
      no fix, no range, too uncertain a range, no position; one with nothing wrong but too low a score counts as stale. */
  lemma ReasonIsFirstFault(p: PeerState, now: uint32, limits: Limits)
    ensures var reason := Gate(p, now, limits);
      var silent := !p.present || TooOld(TelemetryAge(p, now), limits.telemetryTtlMs);
      var unranged := TooOld(RangeAge(p, now), limits.rangeTtlMs);
      && (silent ==> reason == StaleTelemetry)
      && (!silent && unranged ==> reason == StaleRange)
      && (!silent && !unranged && NoFix(p) ==> reason == BadGnss)
      && (!silent && !unranged && !NoFix(p) && NoRange(p) ==> reason == StaleRange)
      && (!silent && !unranged && !NoFix(p) && !NoRange(p) && TooSpread(p, limits) ==> reason == BadRangeSigma)
      && (Sound(p, limits) && InTime(p, now, limits) && !Placed(p) ==> reason == BadPosition)
      && (Sound(p, limits) && InTime(p, now, limits) && Placed(p) ==> reason == StaleTelemetry || reason == NotRejected)
  {
  }

  /** What an anchor says of its peer. */
  predicate Describes(a: Anchor, p: PeerState, now: uint32, limits: Limits) {
    && a.latE7 == p.rangePosition.latE7 && a.lonE7 == p.rangePosition.lonE7 && a.altMm == p.rangePosition.altMm
    && a.rangeMm == p.rangeMm && a.rangeSigmaMm == p.rangeSigmaMm && a.quality == ScoreOf(p, now, limits).total
  }

  /** Every anchor selected is a peer that can be one, and no passing peer that was dropped is fresher than one kept. */
  lemma SelectionKeepsFreshest(s: Core, now: uint32)
    requires |s.peers| == NAV_MAX_NODES
    ensures var sel, limits := SelectionAt(s, now), LimitsOf(s.config);
      && (forall a <- sel.anchors ::
            a.nodeId < NAV_MAX_NODES && Gate(s.peers[a.nodeId], now, limits).NotRejected?
            && Describes(a, s.peers[a.nodeId], now, limits))
      && (forall i, a <- sel.anchors :: 0 <= i < |sel.rejectedIds| && sel.rejectedReasons[i].NotRejected? ==>
            && sel.rejectedIds[i] < NAV_MAX_NODES
            && !(NoStaler(s.peers[sel.rejectedIds[i]], s.peers[a.nodeId], now)
                 && Fresher(s.peers[sel.rejectedIds[i]], s.peers[a.nodeId], now, limits)))
  {
    var sel, limits := SelectionAt(s, now), LimitsOf(s.config);
    var cands := Candidates(s.peers, now, limits);
    forall a <- sel.anchors
      ensures a.nodeId < NAV_MAX_NODES && Gate(s.peers[a.nodeId], now, limits).NotRejected?
      ensures a == AnchorOf(a.nodeId, s.peers[a.nodeId], now, limits)
    {
      assert cands[a.nodeId].reason.NotRejected? && a == cands[a.nodeId].anchor;
    }
    forall i, a <- sel.anchors | 0 <= i < |sel.rejectedIds| && sel.rejectedReasons[i].NotRejected?
      ensures sel.rejectedIds[i] < NAV_MAX_NODES
      ensures !(NoStaler(s.peers[sel.rejectedIds[i]], s.peers[a.nodeId], now)
                && Fresher(s.peers[sel.rejectedIds[i]], s.peers[a.nodeId], now, limits))
    {
      var p, q := s.peers[sel.rejectedIds[i]], s.peers[a.nodeId];
      assert sel.rejectedReasons[i] == cands[sel.rejectedIds[i]].reason;
      if NoStaler(p, q, now) {
        ScoreFallsWithAge(p, q, now, limits);
      }
    }
  }
}
