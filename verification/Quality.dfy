/** Anchor scoring, and the fact that the staleness pass never changes a score. */
module Quality {
  import opened Words
  import opened NavTypes
  import opened PeerTable

  datatype AnchorQuality = AnchorQuality(
    gnss: real, telemetry: real, range: real, geometry: real, total: real, reject: RejectReason)

  function Rejection(reason: RejectReason): AnchorQuality {
    AnchorQuality(0.0, 0.0, 0.0, 1.0, 0.0, reason)
  }

  function Freshness(age: uint32, ttl: uint32): real {
    if ttl == 0 || age >= ttl then 0.0 else 1.0 - (age as real) / (ttl as real)
  }

  /** The score of a peer slot; an absent peer scores like a silent one. */
  function Score(p: PeerState, now: uint32, telemetryTtl: uint32, rangeTtl: uint32, maxSigmaMm: uint32): AnchorQuality {
    if !p.present then Rejection(StaleTelemetry)
    else if Expired(now, p.lastTelemetryMs, telemetryTtl) then Rejection(StaleTelemetry)
    else if Expired(now, p.lastRangeMs, rangeTtl) then Rejection(StaleRange)
    else if !p.gnssValid || p.fixType < NAV_GNSS_FIX_3D then Rejection(BadGnss)
    else if !p.rangeValid || p.rangeMm == 0 then Rejection(StaleRange)
    else if maxSigmaMm > 0 && p.rangeSigmaMm > maxSigmaMm then Rejection(BadRangeSigma)
    else
      var telemetry := if telemetryTtl == 0 then 1.0 else Freshness(Since(now, p.lastTelemetryMs), telemetryTtl);
      var range := if rangeTtl == 0 then 1.0 else Freshness(Since(now, p.lastRangeMs), rangeTtl);
      AnchorQuality(1.0, telemetry, range, 1.0, 1.0 * telemetry * range * 1.0, NotRejected)
  }

  /** The peer after the staleness pass ran at each of the given times, in order. */
  function MarkedThrough(p: PeerState, times: seq<nat>, telemetryTtl: uint32, rangeTtl: uint32): PeerState {
    if times == [] then p
    else Marked(MarkedThrough(p, times[..|times| - 1], telemetryTtl, rangeTtl),
                Wrap32(times[|times| - 1]), telemetryTtl, rangeTtl)
  }

  /** The clock `now` is no more than one wrap after both of the peer's receive times. */
  predicate HeardAt(p: PeerState, telemetryAt: int, rangeAt: int, times: seq<nat>, now: nat) {
    && p.lastTelemetryMs == Wrap32(telemetryAt) && p.lastRangeMs == Wrap32(rangeAt)
    && now < telemetryAt + TWO_32 && now < rangeAt + TWO_32
    && telemetryAt <= now && rangeAt <= now
    && (forall i :: 0 <= i < |times| ==> telemetryAt <= times[i] <= now && rangeAt <= times[i])
  }

  /** What marking may have changed: exactly the fields a later score rejects before it reads them. */
  predicate ScoresAlike(p: PeerState, q: PeerState, now: uint32, telemetryTtl: uint32, rangeTtl: uint32) {
    && q == p.(gnssValid := q.gnssValid, rangeValid := q.rangeValid, rangePositionValid := q.rangePositionValid,
               telemetryQuality := q.telemetryQuality, rangeQuality := q.rangeQuality,
               anchorQuality := q.anchorQuality, lastReject := q.lastReject)
    && (p.present && !Expired(now, p.lastTelemetryMs, telemetryTtl) ==> q.gnssValid == p.gnssValid)
    && (p.present && !Expired(now, p.lastRangeMs, rangeTtl)
        ==> q.rangeValid == p.rangeValid && q.rangePositionValid == p.rangePositionValid)
  }

  /** One more marking, at a time when nothing had expired that is not expired later too, changes nothing more. */
  lemma MarkingStepAlike(p: PeerState, q: PeerState, at: uint32, now: uint32, telemetryTtl: uint32, rangeTtl: uint32)
    requires ScoresAlike(p, q, now, telemetryTtl, rangeTtl)
    requires Expired(at, p.lastTelemetryMs, telemetryTtl) ==> Expired(now, p.lastTelemetryMs, telemetryTtl)
    requires Expired(at, p.lastRangeMs, rangeTtl) ==> Expired(now, p.lastRangeMs, rangeTtl)
    ensures ScoresAlike(p, Marked(q, at, telemetryTtl, rangeTtl), now, telemetryTtl, rangeTtl)
  {
  }

  lemma {:induction false} MarkingAlike(
    p: PeerState, telemetryAt: int, rangeAt: int, times: seq<nat>, now: nat, telemetryTtl: uint32, rangeTtl: uint32)
    requires HeardAt(p, telemetryAt, rangeAt, times, now)
    ensures ScoresAlike(p, MarkedThrough(p, times, telemetryTtl, rangeTtl), Wrap32(now), telemetryTtl, rangeTtl)
  {
    if times != [] {
      var last := times[|times| - 1];
      MarkingAlike(p, telemetryAt, rangeAt, times[..|times| - 1], now, telemetryTtl, rangeTtl);
      SinceUnwrapped(now, telemetryAt);
      SinceUnwrapped(now, rangeAt);
      SinceUnwrapped(last, telemetryAt);
      SinceUnwrapped(last, rangeAt);
      MarkingStepAlike(p, MarkedThrough(p, times[..|times| - 1], telemetryTtl, rangeTtl),
                       Wrap32(last), Wrap32(now), telemetryTtl, rangeTtl);
    }
  }

  /** However often the staleness pass ran before `now`, the peer scores at `now` as if it never had. */
  lemma MarkingNeverChangesScore(
    p: PeerState, telemetryAt: int, rangeAt: int, times: seq<nat>, now: nat,
    telemetryTtl: uint32, rangeTtl: uint32, maxSigmaMm: uint32)
    requires HeardAt(p, telemetryAt, rangeAt, times, now)
    ensures Score(MarkedThrough(p, times, telemetryTtl, rangeTtl), Wrap32(now), telemetryTtl, rangeTtl, maxSigmaMm)
         == Score(p, Wrap32(now), telemetryTtl, rangeTtl, maxSigmaMm)
  {
    MarkingAlike(p, telemetryAt, rangeAt, times, now, telemetryTtl, rangeTtl);
  }

  /** Marking twice at one time is marking once. */
  lemma MarkingIdempotent(p: PeerState, now: uint32, telemetryTtl: uint32, rangeTtl: uint32)
    ensures Marked(Marked(p, now, telemetryTtl, rangeTtl), now, telemetryTtl, rangeTtl)
         == Marked(p, now, telemetryTtl, rangeTtl)
  {
  }

  /** Marking a peer at `t` has taken away something a score at `now` still reads: the peer looks fresh again at `now`,
      but at `t` its telemetry had expired, or a range that would otherwise still count. */
  predicate MarkingShows(p: PeerState, t: uint32, now: uint32, telemetryTtl: uint32, rangeTtl: uint32) {
    && p.present && !Expired(now, p.lastTelemetryMs, telemetryTtl) && !Expired(now, p.lastRangeMs, rangeTtl)
    && p.gnssValid && p.fixType >= NAV_GNSS_FIX_3D
    && (Expired(t, p.lastTelemetryMs, telemetryTtl)
        || (Expired(t, p.lastRangeMs, rangeTtl) && p.rangeValid && p.rangeMm != 0))
  }

  /** With no hypothesis on the clock: a marked peer scores as the unmarked one exactly unless the marking shows. */
  lemma MarkedScoresAlike(
    p: PeerState, t: uint32, now: uint32, telemetryTtl: uint32, rangeTtl: uint32, maxSigmaMm: uint32)
    ensures Score(Marked(p, t, telemetryTtl, rangeTtl), now, telemetryTtl, rangeTtl, maxSigmaMm)
            == Score(p, now, telemetryTtl, rangeTtl, maxSigmaMm)
        <==> !MarkingShows(p, t, now, telemetryTtl, rangeTtl)
  {
  }

  /** It can show once 2^32 ms have passed. */
  lemma MarkingVisibleAfterWrap()
    ensures exists p: PeerState, t: uint32, now: uint32 ::
      Score(Marked(p, t, 2000, 1000), now, 2000, 1000, 0) != Score(p, now, 2000, 1000, 0)
  {
    var p := EmptyPeer(1).(present := true, fixType := 3, gnssValid := true, rangeValid := true, rangeMm := 1);
    MarkedScoresAlike(p, 5000, 0, 2000, 1000, 0);
    assert MarkingShows(p, 5000, 0, 2000, 1000);
  }
}
