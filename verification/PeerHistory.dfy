/** What a peer slot holds after any history of telemetry, range and staleness operations. */
module PeerHistory {
  import opened Words
  import opened NavTypes
  import opened PeerTable

  datatype PeerOp =
    | BeaconOp(beacon: PeerBeacon, now: uint32)
    | RangeOp(range: RangeResult, now: uint32)
    | MarkOp(now: uint32, telemetryTtl: uint32, rangeTtl: uint32)

  function Apply(peers: seq<PeerState>, op: PeerOp): (r: seq<PeerState>)
    ensures |r| == |peers|
  {
    match op
    case BeaconOp(b, now) =>
      var id := b.telemetry.nodeId;
      if id < |peers| then peers[id := WithBeacon(peers[id], b, now)] else peers
    case RangeOp(r, now) =>
      if r.peerId < |peers| then peers[r.peerId := WithRange(peers[r.peerId], r, now)] else peers
    case MarkOp(now, telemetryTtl, rangeTtl) =>
      MarkedAll(peers, now, telemetryTtl, rangeTtl)
  }

  function ApplyAll(peers: seq<PeerState>, ops: seq<PeerOp>): (r: seq<PeerState>)
    ensures |r| == |peers|
  {
    if ops == [] then peers else Apply(ApplyAll(peers, ops[..|ops| - 1]), ops[|ops| - 1])
  }

  /** Index of the last beacon heard from node `id`. */
  function LastBeacon(ops: seq<PeerOp>, id: nat): (r: Option<nat>)
    ensures r.Some? ==> r.value < |ops| && ops[r.value].BeaconOp? && ops[r.value].beacon.telemetry.nodeId == id
    ensures forall i :: (if r.Some? then r.value else -1) < i < |ops| && ops[i].BeaconOp?
              ==> ops[i].beacon.telemetry.nodeId != id
  {
    if ops == [] then None
    else
      var last := ops[|ops| - 1];
      if last.BeaconOp? && last.beacon.telemetry.nodeId == id then Some(|ops| - 1)
      else LastBeacon(ops[..|ops| - 1], id)
  }

  /** Index of the last range update for node `id`. */
  function LastRange(ops: seq<PeerOp>, id: nat): (r: Option<nat>)
    ensures r.Some? ==> r.value < |ops| && ops[r.value].RangeOp? && ops[r.value].range.peerId == id
    ensures forall i :: (if r.Some? then r.value else -1) < i < |ops| && ops[i].RangeOp?
              ==> ops[i].range.peerId != id
  {
    if ops == [] then None
    else
      var last := ops[|ops| - 1];
      if last.RangeOp? && last.range.peerId == id then Some(|ops| - 1)
      else LastRange(ops[..|ops| - 1], id)
  }

  /** The position node `id` last reported, zero before its first beacon. */
  function PositionHeard(ops: seq<PeerOp>, id: nat): Position {
    match LastBeacon(ops, id)
    case None => ZERO_POSITION
    case Some(k) => ops[k].beacon.telemetry.position
  }

  /** A staleness pass after operation `k` found that operation's telemetry too old. */
  predicate TelemetryExpired(ops: seq<PeerOp>, k: nat)
    requires k < |ops|
  {
    exists m :: k < m < |ops| && ops[m].MarkOp? && Expired(ops[m].now, ops[k].now, ops[m].telemetryTtl)
  }

  predicate RangeExpired(ops: seq<PeerOp>, k: nat)
    requires k < |ops|
  {
    exists m :: k < m < |ops| && ops[m].MarkOp? && Expired(ops[m].now, ops[k].now, ops[m].rangeTtl)
  }

  /** Node `id`'s last beacon was GNSS-valid and has not been marked stale. */
  predicate GnssValidHeard(ops: seq<PeerOp>, id: nat) {
    match LastBeacon(ops, id)
    case None => false
    case Some(k) => ops[k].beacon.telemetry.gnssValid && !TelemetryExpired(ops, k)
  }

  /** The slot of node `id` says exactly what the history says. */
  ghost predicate TellsTelemetry(p: PeerState, ops: seq<PeerOp>, id: nat) {
    && p.position == PositionHeard(ops, id)
    && p.gnssValid == GnssValidHeard(ops, id)
    && (LastBeacon(ops, id).Some? ==> p.present && p.lastTelemetryMs == ops[LastBeacon(ops, id).value].now)
  }

  ghost predicate TellsRange(p: PeerState, ops: seq<PeerOp>, id: nat) {
    match LastRange(ops, id)
    case None => !p.rangeValid && !p.rangePositionValid && p.rangePosition == ZERO_POSITION
    case Some(k) =>
      && p.present && p.lastRangeMs == ops[k].now && p.rangeMm == ops[k].range.rangeMm
      && p.rangeValid == (ops[k].range.valid && !RangeExpired(ops, k))
      && p.rangePosition == PositionHeard(ops[..k], id)
      && p.rangePositionValid ==
         (ops[k].range.valid && GnssValidHeard(ops[..k], id) && !RangeExpired(ops, k))
  }

  lemma ExpiredSnoc(ops: seq<PeerOp>, k: nat)
    requires k < |ops| - 1
    ensures var last := ops[|ops| - 1];
      && TelemetryExpired(ops, k) == (TelemetryExpired(ops[..|ops| - 1], k)
         || (last.MarkOp? && Expired(last.now, ops[k].now, last.telemetryTtl)))
      && RangeExpired(ops, k) == (RangeExpired(ops[..|ops| - 1], k)
         || (last.MarkOp? && Expired(last.now, ops[k].now, last.rangeTtl)))
  {
    var before := ops[..|ops| - 1];
    if TelemetryExpired(before, k) {
      var m :| k < m < |before| && before[m].MarkOp? && Expired(before[m].now, before[k].now, before[m].telemetryTtl);
      assert ops[m] == before[m];
    }
    if RangeExpired(before, k) {
      var m :| k < m < |before| && before[m].MarkOp? && Expired(before[m].now, before[k].now, before[m].rangeTtl);
      assert ops[m] == before[m];
    }
  }

  lemma {:induction false} TelemetryTracked(n: nat, ops: seq<PeerOp>, id: nat)
    requires id < n <= 0x100
    ensures TellsTelemetry(ApplyAll(EmptyTable(n), ops)[id], ops, id)
  {
    if ops != [] {
      TelemetryTracked(n, ops[..|ops| - 1], id);
      match LastBeacon(ops, id)
      case None =>
      case Some(k) => if k < |ops| - 1 { ExpiredSnoc(ops, k); }
    }
  }

  /** After any history the ranged coordinate is the one heard last before the latest range update, and it
      counts as valid exactly when that update was valid, the peer was GNSS-valid then, and no staleness
      pass has expired the range since. */
  lemma {:induction false} RangePairing(n: nat, ops: seq<PeerOp>, id: nat)
    requires id < n <= 0x100
    ensures TellsRange(ApplyAll(EmptyTable(n), ops)[id], ops, id)
  {
    if ops != [] {
      var before := ops[..|ops| - 1];
      TelemetryTracked(n, before, id);
      RangePairing(n, before, id);
      match LastRange(ops, id)
      case None =>
      case Some(k) =>
        if k < |ops| - 1 {
          ExpiredSnoc(ops, k);
          assert before[..k] == ops[..k];
        }
    }
  }

  // ---- everything else a slot says --------------------------------------

  /** The slot repeats the rest of the last beacon as it was sent. */
  predicate TellsBeacon(p: PeerState, t: PeerTelemetry) {
    && p.packetSeq == t.packetSeq && p.velocity == t.velocity && p.fixType == t.fixType && p.satellites == t.satellites
    && p.hdopCenti == t.hdopCenti && p.haccMm == t.haccMm && p.vaccMm == t.vaccMm && p.navMode == t.navMode
    && p.solutionStatus == t.solutionStatus && p.solutionSource == t.solutionSource
  }

  /** The signal levels of the last beacon or range update of node `id`, whichever came later. */
  function LinkHeard(ops: seq<PeerOp>, id: nat): (int16, int16) {
    if ops == [] then (0, 0)
    else
      var last := ops[|ops| - 1];
      if last.BeaconOp? && last.beacon.telemetry.nodeId == id then (last.beacon.rssiDbm, last.beacon.snrDb)
      else if last.RangeOp? && last.range.peerId == id then (last.range.rssiDbm, last.range.snrDb)
      else LinkHeard(ops[..|ops| - 1], id)
  }

  lemma {:induction false} LinkTracked(n: nat, ops: seq<PeerOp>, id: nat)
    requires id < n <= 0x100
    ensures var p := ApplyAll(EmptyTable(n), ops)[id];
      p.rssiDbm == LinkHeard(ops, id).0 && p.snrDb == LinkHeard(ops, id).1
  {
    if ops != [] {
      LinkTracked(n, ops[..|ops| - 1], id);
    }
  }

  lemma {:induction false} BeaconTracked(n: nat, ops: seq<PeerOp>, id: nat)
    requires id < n <= 0x100 && LastBeacon(ops, id).Some?
    ensures TellsBeacon(ApplyAll(EmptyTable(n), ops)[id], ops[LastBeacon(ops, id).value].beacon.telemetry)
  {
    if LastBeacon(ops, id).value < |ops| - 1 {
      BeaconTracked(n, ops[..|ops| - 1], id);
    }
  }

  lemma {:induction false} RequestTracked(n: nat, ops: seq<PeerOp>, id: nat)
    requires id < n <= 0x100 && LastRange(ops, id).Some?
    ensures var p, r := ApplyAll(EmptyTable(n), ops)[id], ops[LastRange(ops, id).value].range;
      p.lastRangeRequestId == r.requestId && p.rangeSigmaMm == r.rangeSigmaMm
  {
    if LastRange(ops, id).value < |ops| - 1 {
      RequestTracked(n, ops[..|ops| - 1], id);
    }
  }

  lemma {:induction false} PresenceTracked(n: nat, ops: seq<PeerOp>, id: nat)
    requires id < n <= 0x100
    ensures var p := ApplyAll(EmptyTable(n), ops)[id];
      p.nodeId == id && (p.present <==> LastBeacon(ops, id).Some? || LastRange(ops, id).Some?)
  {
    if ops != [] {
      PresenceTracked(n, ops[..|ops| - 1], id);
    }
  }

  /** After any history a slot repeats its node's last beacon, its last range's request and spread, and the signal levels
      of whichever came later. */
  lemma SlotRepeatsLast(n: nat, ops: seq<PeerOp>, id: nat)
    requires id < n <= 0x100
    ensures var p := ApplyAll(EmptyTable(n), ops)[id];
      && p.rssiDbm == LinkHeard(ops, id).0 && p.snrDb == LinkHeard(ops, id).1
      && (LastBeacon(ops, id).Some? ==> TellsBeacon(p, ops[LastBeacon(ops, id).value].beacon.telemetry))
      && (LastRange(ops, id).Some? ==>
            var r := ops[LastRange(ops, id).value].range;
            p.lastRangeRequestId == r.requestId && p.rangeSigmaMm == r.rangeSigmaMm)
      && p.nodeId == id && (p.present <==> LastBeacon(ops, id).Some? || LastRange(ops, id).Some?)
  {
    LinkTracked(n, ops, id);
    PresenceTracked(n, ops, id);
    if LastBeacon(ops, id).Some? {
      BeaconTracked(n, ops, id);
    }
    if LastRange(ops, id).Some? {
      RequestTracked(n, ops, id);
    }
  }

  /** What a slot was last turned down for: nothing after a beacon or a valid range, staleness after a failed range, and
      after a staleness pass that found something old, that. */
  lemma LastRejectFollows(peers: seq<PeerState>, op: PeerOp, id: nat)
    requires id < |peers|
    ensures var was, p := peers[id], Apply(peers, op)[id];
      match op
      case BeaconOp(b, _) => p.lastReject == (if b.telemetry.nodeId == id then NotRejected else was.lastReject)
      case RangeOp(r, _) =>
        p.lastReject == (if r.peerId != id then was.lastReject else if r.valid then NotRejected else StaleRange)
      case MarkOp(now, telemetryTtl, rangeTtl) =>
        var telemetryOld := was.present && Expired(now, was.lastTelemetryMs, telemetryTtl);
        var rangeOld := was.present && Expired(now, was.lastRangeMs, rangeTtl);
        && p.lastReject == (if telemetryOld then StaleTelemetry
                            else if rangeOld && was.lastReject.NotRejected? then StaleRange else was.lastReject)
        && (telemetryOld || rangeOld ==> p.anchorQuality == 0.0)
  {
  }
}
