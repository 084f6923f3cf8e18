/** The peer table: a fixed array of peer slots overwritten in place. */
module PeerTable {
  import opened Words
  import opened NavTypes

  function EmptyPeer(id: uint8): PeerState {
    PeerState(id, false, 0, 0, 0, 0, ZERO_POSITION, ZERO_POSITION, 0, Velocity(0, 0, 0), NAV_GNSS_FIX_NONE,
              false, 0, 0, 0, 0, 0, 0, 0, 0, 0, false, false, 0, 0, 0.0, 0.0, 0.0, 0.0, NotRejected)
  }

  function EmptyTable(n: nat): seq<PeerState>
    requires n <= 0x100
  {
    seq(n, i requires 0 <= i < n => EmptyPeer(i))
  }

  /** A peer after its telemetry was received at `now`. */
  function WithTelemetry(p: PeerState, t: PeerTelemetry, now: uint32): PeerState {
    p.(nodeId := t.nodeId, present := true, lastTelemetryMs := now, packetSeq := t.packetSeq,
       position := t.position, velocity := t.velocity, fixType := t.fixType, gnssValid := t.gnssValid,
       satellites := t.satellites, hdopCenti := t.hdopCenti, haccMm := t.haccMm, vaccMm := t.vaccMm,
       navMode := t.navMode, solutionStatus := t.solutionStatus, solutionSource := t.solutionSource,
       lastReject := NotRejected)
  }

  function WithBeacon(p: PeerState, b: PeerBeacon, now: uint32): PeerState {
    WithTelemetry(p, b.telemetry, now).(rssiDbm := b.rssiDbm, snrDb := b.snrDb)
  }

  /** A peer after a range update at `now`: the coordinate known at this instant is locked to the range. */
  function WithRange(p: PeerState, r: RangeResult, now: uint32): PeerState {
    p.(nodeId := r.peerId, present := true, lastRangeMs := now, lastRangeRequestId := r.requestId,
       rangeMm := r.rangeMm, rangeSigmaMm := r.rangeSigmaMm, rangeValid := r.valid,
       rangePosition := p.position, rangePositionMs := p.lastTelemetryMs,
       rangePositionValid := r.valid && p.gnssValid,
       rssiDbm := r.rssiDbm, snrDb := r.snrDb,
       lastReject := if r.valid then NotRejected else StaleRange)
  }

  predicate Expired(now: uint32, past: uint32, ttl: uint32) {
    ttl > 0 && Since(now, past) > ttl
  }

  /** A peer after the staleness pass at `now`. */
  function Marked(p: PeerState, now: uint32, telemetryTtl: uint32, rangeTtl: uint32): PeerState {
    if !p.present then p
    else
      var q :=
        if Expired(now, p.lastTelemetryMs, telemetryTtl)
        then p.(gnssValid := false, telemetryQuality := 0.0, anchorQuality := 0.0, lastReject := StaleTelemetry)
        else p;
      if Expired(now, p.lastRangeMs, rangeTtl)
      then q.(rangeValid := false, rangePositionValid := false, rangeQuality := 0.0, anchorQuality := 0.0,
              lastReject := if q.lastReject.NotRejected? then StaleRange else q.lastReject)
      else q
  }

  function MarkedAll(peers: seq<PeerState>, now: uint32, telemetryTtl: uint32, rangeTtl: uint32): (r: seq<PeerState>)
    ensures |r| == |peers|
  {
    seq(|peers|, i requires 0 <= i < |peers| => Marked(peers[i], now, telemetryTtl, rangeTtl))
  }

  class Table {
    const peers: array<PeerState>

    constructor (n: nat)
      requires n <= 0x100
      ensures fresh(peers) && peers[..] == EmptyTable(n)
    {
      var a := new PeerState[n](i => EmptyPeer(if 0 <= i < 0x100 then i else 0));
      peers := a;
    }

    /** The slot of a present peer, as the lookup functions return it. */
    method Get(id: uint8) returns (r: Option<PeerState>)
      ensures r == if id < peers.Length && peers[id].present then Some(peers[id]) else None
    {
      if id >= peers.Length || !peers[id].present {
        return None;
      }
      r := Some(peers[id]);
    }

    method UpdateTelemetry(t: PeerTelemetry, now: uint32) returns (ok: bool)
      modifies peers
      ensures ok == (t.nodeId < peers.Length)
      ensures ok ==> peers[..] == old(peers[..])[t.nodeId := WithTelemetry(old(peers[t.nodeId]), t, now)]
      ensures !ok ==> peers[..] == old(peers[..])
    {
      if t.nodeId >= peers.Length {
        return false;
      }
      var i := t.nodeId;
      peers[i] := peers[i].(nodeId := t.nodeId, present := true);
      peers[i] := peers[i].(lastTelemetryMs := now, packetSeq := t.packetSeq);
      peers[i] := peers[i].(position := t.position, velocity := t.velocity);
      peers[i] := peers[i].(fixType := t.fixType, gnssValid := t.gnssValid, satellites := t.satellites);
      peers[i] := peers[i].(hdopCenti := t.hdopCenti, haccMm := t.haccMm, vaccMm := t.vaccMm);
      peers[i] := peers[i].(navMode := t.navMode, solutionStatus := t.solutionStatus);
      peers[i] := peers[i].(solutionSource := t.solutionSource, lastReject := NotRejected);
      ok := true;
    }

    method UpdateBeacon(b: PeerBeacon, now: uint32) returns (ok: bool)
      modifies peers
      ensures ok == (b.telemetry.nodeId < peers.Length)
      ensures ok ==>
        peers[..] == old(peers[..])[b.telemetry.nodeId := WithBeacon(old(peers[b.telemetry.nodeId]), b, now)]
      ensures !ok ==> peers[..] == old(peers[..])
    {
      ok := UpdateTelemetry(b.telemetry, now);
      if ok {
        var i := b.telemetry.nodeId;
        peers[i] := peers[i].(rssiDbm := b.rssiDbm, snrDb := b.snrDb);
      }
    }

    method UpdateRange(r: RangeResult, now: uint32) returns (ok: bool)
      modifies peers
      ensures ok == (r.peerId < peers.Length)
      ensures ok ==> peers[..] == old(peers[..])[r.peerId := WithRange(old(peers[r.peerId]), r, now)]
      ensures !ok ==> peers[..] == old(peers[..])
    {
      if r.peerId >= peers.Length {
        return false;
      }
      var i := r.peerId;
      peers[i] := peers[i].(nodeId := r.peerId, present := true, lastRangeMs := now);
      peers[i] := peers[i].(lastRangeRequestId := r.requestId, rangeMm := r.rangeMm, rangeSigmaMm := r.rangeSigmaMm);
      peers[i] := peers[i].(rangeValid := r.valid, rangePosition := peers[i].position);
      peers[i] := peers[i].(rangePositionMs := peers[i].lastTelemetryMs);
      peers[i] := peers[i].(rangePositionValid := r.valid && peers[i].gnssValid);
      peers[i] := peers[i].(rssiDbm := r.rssiDbm, snrDb := r.snrDb);
      peers[i] := peers[i].(lastReject := if r.valid then NotRejected else StaleRange);
      if !r.valid {
        peers[i] := peers[i].(rangePositionValid := false);
      }
      ok := true;
    }

    method MarkStale(now: uint32, telemetryTtl: uint32, rangeTtl: uint32)
      modifies peers
      ensures peers[..] == MarkedAll(old(peers[..]), now, telemetryTtl, rangeTtl)
    {
      for i := 0 to peers.Length
        invariant forall k :: 0 <= k < i ==> peers[k] == Marked(old(peers[k]), now, telemetryTtl, rangeTtl)
        invariant forall k :: i <= k < peers.Length ==> peers[k] == old(peers[k])
      {
        if !peers[i].present {
          continue;
        }
        var telemetryAge := Since(now, peers[i].lastTelemetryMs);
        var rangeAge := Since(now, peers[i].lastRangeMs);
        if telemetryTtl > 0 && telemetryAge > telemetryTtl {
          peers[i] := peers[i].(gnssValid := false, telemetryQuality := 0.0, anchorQuality := 0.0);
          peers[i] := peers[i].(lastReject := StaleTelemetry);
        }
        if rangeTtl > 0 && rangeAge > rangeTtl {
          peers[i] := peers[i].(rangeValid := false, rangePositionValid := false);
          peers[i] := peers[i].(rangeQuality := 0.0, anchorQuality := 0.0);
          if peers[i].lastReject.NotRejected? {
            peers[i] := peers[i].(lastReject := StaleRange);
          }
        }
      }
    }
  }
}
