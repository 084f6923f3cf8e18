/** Little-endian payload codecs for beacons, ranges, heartbeats, debug requests and quality reports. */
module Telemetry {
  import opened Words
  import opened NavTypes
  import opened RadioFrame
  import NavState

  const NAV_RADIO_MSG_HEARTBEAT: uint8 := 64
  const NAV_RADIO_MSG_BEACON_RX: uint8 := 66
  const NAV_RADIO_MSG_RANGE_RESULT: uint8 := 67
  const NAV_RADIO_MSG_RANGE_FAIL: uint8 := 68
  const NAV_RADIO_MSG_DEBUG_ENABLE: uint8 := 71
  const NAV_RADIO_MSG_NODE_QUALITY_REPORT: uint8 := 72

  datatype Heartbeat = Heartbeat(
    nodeId: uint8, uptimeMs: uint32, statusFlags: uint32, frameIndex: uint32, slotIndex: uint8,
    slotMs: uint16, slotElapsedMs: uint16)

  datatype DebugEnable = DebugEnable(originNodeId: uint8, ttlMs: uint16)

  datatype QualityReport = QualityReport(
    nodeId: uint8,
    navMode: uint8,
    solutionStatus: uint8,
    solutionSource: uint8,
    numAnchors: uint8,
    anchorIds: seq<uint8>,
    fixType: uint8,
    satellites: uint8,
    geometryScore: real,
    totalQuality: real,
    residualRmsMm: uint32,
    maxResidualMm: uint32,
    hdopCenti: uint16,
    haccMm: uint32,
    vaccMm: uint32,
    position: Position,
    packetSeq: uint32)

  // ---- words as bytes ---------------------------------------------------

  function LE16(v: uint16): (b: seq<uint8>)
    ensures |b| == 2
  {
    [v % 0x100, v / 0x100]
  }

  function LE32(v: uint32): (b: seq<uint8>)
    ensures |b| == 4
  {
    [v % 0x100, v / 0x100 % 0x100, v / 0x1_0000 % 0x100, v / 0x100_0000]
  }

  function Join16(b: seq<uint8>): uint16
    requires |b| == 2
  {
    (b[0] as int) + 0x100 * (b[1] as int)
  }

  function Join32(b: seq<uint8>): uint32
    requires |b| == 4
  {
    (b[0] as int) + 0x100 * (b[1] as int) + 0x1_0000 * (b[2] as int) + 0x100_0000 * (b[3] as int)
  }

  function FromInt16(v: int16): uint16 {
    if v >= 0 then v else v + 0x1_0000
  }

  function FromInt32(v: int32): uint32 {
    if v >= 0 then v else v + TWO_32
  }

  function U16At(b: seq<uint8>, o: nat): uint16
    requires o + 2 <= |b|
  {
    Join16(b[o..o + 2])
  }

  function U32At(b: seq<uint8>, o: nat): uint32
    requires o + 4 <= |b|
  {
    Join32(b[o..o + 4])
  }

  function I16At(b: seq<uint8>, o: nat): int16
    requires o + 2 <= |b|
  {
    AsInt16(U16At(b, o))
  }

  function I32At(b: seq<uint8>, o: nat): int32
    requires o + 4 <= |b|
  {
    AsInt32(U32At(b, o))
  }

  lemma JoinedWord(v: uint32)
    ensures Join32(LE32(v)) == v
  {
    var a, b, c := v / 0x100, v / 0x1_0000, v / 0x100_0000;
    assert b == a / 0x100 && c == b / 0x100;
    assert v == 0x100 * a + v % 0x100 && a == 0x100 * b + a % 0x100 && b == 0x100 * c + b % 0x100;
  }

  /** A field read back at the offset where its bytes were written. */
  lemma WordAt(p: seq<uint8>, o: nat, v: uint32)
    requires o + 4 <= |p| && forall k :: 0 <= k < 4 ==> p[o + k] == LE32(v)[k]
    ensures U32At(p, o) == v
  {
    JoinedWord(v);
    assert p[o..o + 4] == LE32(v);
  }

  lemma HalfAt(p: seq<uint8>, o: nat, v: uint16)
    requires o + 2 <= |p| && forall k :: 0 <= k < 2 ==> p[o + k] == LE16(v)[k]
    ensures U16At(p, o) == v
  {
    assert p[o..o + 2] == LE16(v);
  }

  lemma IntAt(p: seq<uint8>, o: nat, v: int32)
    requires o + 4 <= |p| && forall k :: 0 <= k < 4 ==> p[o + k] == LE32(FromInt32(v))[k]
    ensures I32At(p, o) == v
  {
    WordAt(p, o, FromInt32(v));
  }

  lemma ShortAt(p: seq<uint8>, o: nat, v: int16)
    requires o + 2 <= |p| && forall k :: 0 <= k < 2 ==> p[o + k] == LE16(FromInt16(v))[k]
    ensures I16At(p, o) == v
  {
    HalfAt(p, o, FromInt16(v));
  }

  // ---- the moving write cursor ------------------------------------------

  /** The first `o` bytes of the buffer are these. */
  ghost predicate Holds(b: array<uint8>, o: nat, bytes: seq<uint8>)
    reads b
  {
    o == |bytes| <= b.Length && b[..o] == bytes
  }

  method PutU8(b: array<uint8>, o: nat, v: uint8, ghost done: seq<uint8>) returns (next: nat)
    requires Holds(b, o, done) && o + 1 <= b.Length
    modifies b
    ensures Holds(b, next, done + [v])
  {
    b[o] := v;
    next := o + 1;
  }

  method PutU16(b: array<uint8>, o: nat, v: uint16, ghost done: seq<uint8>) returns (next: nat)
    requires Holds(b, o, done) && o + 2 <= b.Length
    modifies b
    ensures Holds(b, next, done + LE16(v))
  {
    b[o] := v % 0x100;
    b[o + 1] := v / 0x100;
    next := o + 2;
  }

  method PutU32(b: array<uint8>, o: nat, v: uint32, ghost done: seq<uint8>) returns (next: nat)
    requires Holds(b, o, done) && o + 4 <= b.Length
    modifies b
    ensures Holds(b, next, done + LE32(v))
  {
    b[o] := v % 0x100;
    b[o + 1] := v / 0x100 % 0x100;
    b[o + 2] := v / 0x1_0000 % 0x100;
    b[o + 3] := v / 0x100_0000;
    next := o + 4;
  }

  method PutI16(b: array<uint8>, o: nat, v: int16, ghost done: seq<uint8>) returns (next: nat)
    requires Holds(b, o, done) && o + 2 <= b.Length
    modifies b
    ensures Holds(b, next, done + LE16(FromInt16(v)))
  {
    next := PutU16(b, o, FromInt16(v), done);
  }

  method PutI32(b: array<uint8>, o: nat, v: int32, ghost done: seq<uint8>) returns (next: nat)
    requires Holds(b, o, done) && o + 4 <= b.Length
    modifies b
    ensures Holds(b, next, done + LE32(FromInt32(v)))
  {
    next := PutU32(b, o, FromInt32(v), done);
  }

  // ---- the moving read cursor -------------------------------------------

  method GetU8(b: seq<uint8>, o: nat) returns (v: uint8, next: nat)
    requires o + 1 <= |b|
    ensures v == b[o] && next == o + 1
  {
    return b[o], o + 1;
  }

  method GetU16(b: seq<uint8>, o: nat) returns (v: uint16, next: nat)
    requires o + 2 <= |b|
    ensures v == U16At(b, o) && next == o + 2
  {
    v := (b[o] as int) + 0x100 * (b[o + 1] as int);
    next := o + 2;
  }

  method GetU32(b: seq<uint8>, o: nat) returns (v: uint32, next: nat)
    requires o + 4 <= |b|
    ensures v == U32At(b, o) && next == o + 4
  {
    v := (b[o] as int) + 0x100 * (b[o + 1] as int) + 0x1_0000 * (b[o + 2] as int) + 0x100_0000 * (b[o + 3] as int);
    next := o + 4;
  }

  method GetI32x3(b: seq<uint8>, o: nat) returns (x: int32, y: int32, z: int32, next: nat)
    requires o + 12 <= |b|
    ensures x == I32At(b, o) && y == I32At(b, o + 4) && z == I32At(b, o + 8) && next == o + 12
  {
    var u, v, w;
    u, next := GetU32(b, o);
    v, next := GetU32(b, next);
    w, next := GetU32(b, next);
    x, y, z := AsInt32(u), AsInt32(v), AsInt32(w);
  }

  /** Three signed words, as positions and velocities are sent. */
  function LE32x3(x: int32, y: int32, z: int32): (b: seq<uint8>)
    ensures |b| == 12
  {
    LE32(FromInt32(x)) + LE32(FromInt32(y)) + LE32(FromInt32(z))
  }

  method PutI32x3(b: array<uint8>, o: nat, x: int32, y: int32, z: int32, ghost done: seq<uint8>) returns (next: nat)
    requires Holds(b, o, done) && o + 12 <= b.Length
    modifies b
    ensures Holds(b, next, done + LE32x3(x, y, z))
  {
    next := PutI32(b, o, x, done);
    next := PutI32(b, next, y, b[..next]);
    next := PutI32(b, next, z, b[..next]);
  }

  // ---- heartbeat --------------------------------------------------------

  const NAV_TELEMETRY_HEARTBEAT_LEN := 18

  function HeartbeatPayload(h: Heartbeat): (b: seq<uint8>)
    ensures |b| == NAV_TELEMETRY_HEARTBEAT_LEN
  {
    [h.nodeId] + LE32(h.uptimeMs) + LE32(h.statusFlags) + LE32(h.frameIndex) + [h.slotIndex]
    + LE16(h.slotMs) + LE16(h.slotElapsedMs)
  }

  function HeartbeatFrame(h: Heartbeat, seqNo: uint16): Frame {
    Frame(NAV_RADIO_MSG_HEARTBEAT, seqNo, HeartbeatPayload(h))
  }

  function DecodeHeartbeat(f: Frame): Result<Heartbeat> {
    if f.kind != NAV_RADIO_MSG_HEARTBEAT then Failure(NotImplemented)
    else if |f.payload| < NAV_TELEMETRY_HEARTBEAT_LEN then Failure(BadFrame)
    else
      var p := f.payload;
      Success(Heartbeat(p[0], U32At(p, 1), U32At(p, 5), U32At(p, 9), p[13], U16At(p, 14), U16At(p, 16)))
  }

  lemma HeartbeatRoundTrip(h: Heartbeat, seqNo: uint16)
    ensures DecodeHeartbeat(HeartbeatFrame(h, seqNo)) == Success(h)
  {
    var p := HeartbeatPayload(h);
    WordAt(p, 1, h.uptimeMs);
    WordAt(p, 5, h.statusFlags);
    WordAt(p, 9, h.frameIndex);
    HalfAt(p, 14, h.slotMs);
    HalfAt(p, 16, h.slotElapsedMs);
  }

  /** Reads a heartbeat field by field. */
  method ReadHeartbeat(f: Frame) returns (r: Result<Heartbeat>)
    ensures r == DecodeHeartbeat(f)
  {
    if f.kind != NAV_RADIO_MSG_HEARTBEAT {
      return Failure(NotImplemented);
    }
    if |f.payload| < NAV_TELEMETRY_HEARTBEAT_LEN {
      return Failure(BadFrame);
    }
    var node, o := GetU8(f.payload, 0);
    var uptime, flags, frame, slot, slotMs, elapsed;
    uptime, o := GetU32(f.payload, o);
    flags, o := GetU32(f.payload, o);
    frame, o := GetU32(f.payload, o);
    slot, o := GetU8(f.payload, o);
    slotMs, o := GetU16(f.payload, o);
    elapsed, o := GetU16(f.payload, o);
    r := Success(Heartbeat(node, uptime, flags, frame, slot, slotMs, elapsed));
  }

  /** Encodes liveness and TDMA timing as a complete frame. */
  method EncodeHeartbeat(h: Heartbeat, seqNo: uint16, out: array<uint8>) returns (status: Status, length: nat)
    modifies out
    ensures status == if out.Length < NAV_RADIO_HEADER_LEN + NAV_TELEMETRY_HEARTBEAT_LEN then BadFrame else Ok
    ensures status.Ok? ==> length <= out.Length && out[..length] == FrameBytes(HeartbeatFrame(h, seqNo))
    ensures !status.Ok? ==> out[..] == old(out[..])
  {
    var p := new uint8[NAV_TELEMETRY_HEARTBEAT_LEN];
    var o := 0;
    o := PutU8(p, o, h.nodeId, []);
    o := PutU32(p, o, h.uptimeMs, p[..o]);
    o := PutU32(p, o, h.statusFlags, p[..o]);
    o := PutU32(p, o, h.frameIndex, p[..o]);
    o := PutU8(p, o, h.slotIndex, p[..o]);
    o := PutU16(p, o, h.slotMs, p[..o]);
    o := PutU16(p, o, h.slotElapsedMs, p[..o]);
    assert [] + [h.nodeId] == [h.nodeId];
    status, length := EncodeFrame(Frame(NAV_RADIO_MSG_HEARTBEAT, seqNo, p[..o]), out);
  }

  // ---- debug enable -----------------------------------------------------

  const NAV_TELEMETRY_DEBUG_ENABLE_LEN := 3

  function DebugFrame(d: DebugEnable, seqNo: uint16): Frame {
    Frame(NAV_RADIO_MSG_DEBUG_ENABLE, seqNo, [d.originNodeId] + LE16(d.ttlMs))
  }

  function DecodeDebug(f: Frame): Result<DebugEnable> {
    if f.kind != NAV_RADIO_MSG_DEBUG_ENABLE then Failure(NotImplemented)
    else if |f.payload| < NAV_TELEMETRY_DEBUG_ENABLE_LEN then Failure(BadFrame)
    else Success(DebugEnable(f.payload[0], U16At(f.payload, 1)))
  }

  lemma DebugRoundTrip(d: DebugEnable, seqNo: uint16)
    ensures DecodeDebug(DebugFrame(d, seqNo)) == Success(d)
  {
    var p := DebugFrame(d, seqNo).payload;
    HalfAt(p, 1, d.ttlMs);
  }

  method EncodeDebug(d: DebugEnable, seqNo: uint16, out: array<uint8>) returns (status: Status, length: nat)
    modifies out
    ensures status == if out.Length < NAV_RADIO_HEADER_LEN + NAV_TELEMETRY_DEBUG_ENABLE_LEN then BadFrame else Ok
    ensures status.Ok? ==> length <= out.Length && out[..length] == FrameBytes(DebugFrame(d, seqNo))
    ensures !status.Ok? ==> out[..] == old(out[..])
  {
    var p := new uint8[NAV_TELEMETRY_DEBUG_ENABLE_LEN];
    var o := PutU8(p, 0, d.originNodeId, []);
    o := PutU16(p, o, d.ttlMs, p[..o]);
    assert [] + [d.originNodeId] == [d.originNodeId];
    status, length := EncodeFrame(Frame(NAV_RADIO_MSG_DEBUG_ENABLE, seqNo, p[..o]), out);
  }

  // ---- beacon and range events ------------------------------------------

  const NAV_TELEMETRY_BEACON_LEN := 43
  const NAV_TELEMETRY_RANGE_RESULT_LEN := 21
  const NAV_TELEMETRY_RANGE_FAIL_LEN := 13

  function BeaconPayload(t: PeerTelemetry): (b: seq<uint8>)
    ensures |b| == NAV_TELEMETRY_BEACON_LEN
  {
    [t.nodeId] + LE32(t.packetSeq) + LE32(t.timestampMs)
    + LE32x3(t.position.latE7, t.position.lonE7, t.position.altMm)
    + LE32x3(t.velocity.northMmps, t.velocity.eastMmps, t.velocity.downMmps)
    + [t.fixType] + [if t.gnssValid then 1 else 0] + [t.navMode] + [t.solutionStatus] + [t.solutionSource]
    + LE16(0) + LE16(0) + [0]
  }

  function BeaconFrame(t: PeerTelemetry, seqNo: uint16): Frame {
    Frame(NAV_RADIO_MSG_BEACON_RX, seqNo, BeaconPayload(t))
  }

  function RangePayload(r: RangeResult): (b: seq<uint8>)
    ensures |b| == NAV_TELEMETRY_RANGE_RESULT_LEN
  {
    [r.peerId] + [if r.valid then 0 else 1] + LE32(r.timestampMs) + LE32(r.rangeMm) + LE32(r.rangeSigmaMm)
    + LE16(FromInt16(r.rssiDbm)) + LE16(FromInt16(r.snrDb)) + [1] + LE16(r.requestId)
  }

  function RangeFrame(r: RangeResult, seqNo: uint16): Frame {
    Frame(NAV_RADIO_MSG_RANGE_RESULT, seqNo, RangePayload(r))
  }

  /** The telemetry a beacon payload carries; fields not on the wire are zero. */
  function TelemetryIn(p: seq<uint8>): PeerTelemetry
    requires |p| >= NAV_TELEMETRY_BEACON_LEN
  {
    PeerTelemetry(p[0], U32At(p, 1), U32At(p, 5),
                  Position(I32At(p, 9), I32At(p, 13), I32At(p, 17)),
                  Velocity(I32At(p, 21), I32At(p, 25), I32At(p, 29)),
                  p[33], p[34] != 0, 0, 0, 0, 0, p[35], p[36], p[37])
  }

  function RangeIn(p: seq<uint8>): RangeResult
    requires |p| >= NAV_TELEMETRY_RANGE_RESULT_LEN
  {
    RangeResult(p[0], U16At(p, 19), U32At(p, 2), U32At(p, 6), U32At(p, 10), I16At(p, 14), I16At(p, 16), p[1] == 0)
  }

  function FailureIn(p: seq<uint8>): RangeFailure
    requires |p| >= NAV_TELEMETRY_RANGE_FAIL_LEN
  {
    RangeFailure(p[0], U16At(p, 11), U32At(p, 2), p[1])
  }

  /** One received frame as a core event, stamped with the receiver's clock and signal readings. */
  function DecodeEvent(bytes: seq<uint8>, now: uint32, rssiDbm: int16, snrDb: int16): Result<NavState.Event> {
    match DecodeFrame(bytes)
    case Failure(status) => Failure(status)
    case Success(f) =>
      if f.kind == NAV_RADIO_MSG_BEACON_RX then
        if |f.payload| < NAV_TELEMETRY_BEACON_LEN then Failure(BadFrame)
        else Success(NavState.BeaconEvent(now, PeerBeacon(TelemetryIn(f.payload), rssiDbm, snrDb)))
      else if f.kind == NAV_RADIO_MSG_RANGE_RESULT then
        if |f.payload| < NAV_TELEMETRY_RANGE_RESULT_LEN then Failure(BadFrame)
        else Success(NavState.RangeEvent(now, RangeIn(f.payload)))
      else if f.kind == NAV_RADIO_MSG_RANGE_FAIL then
        if |f.payload| < NAV_TELEMETRY_RANGE_FAIL_LEN then Failure(BadFrame)
        else Success(NavState.RangeFailEvent(now, FailureIn(f.payload)))
      else Failure(NotImplemented)
  }

  /** Reads a beacon payload field by field. */
  method ReadTelemetry(p: seq<uint8>) returns (t: PeerTelemetry)
    requires |p| >= NAV_TELEMETRY_BEACON_LEN
    ensures t == TelemetryIn(p)
  {
    var node, o := GetU8(p, 0);
    var packetSeq, timestamp, lat, lon, alt, north, east, down, fix, valid, mode, status, source;
    packetSeq, o := GetU32(p, o);
    timestamp, o := GetU32(p, o);
    lat, lon, alt, o := GetI32x3(p, o);
    north, east, down, o := GetI32x3(p, o);
    fix, o := GetU8(p, o);
    valid, o := GetU8(p, o);
    mode, o := GetU8(p, o);
    status, o := GetU8(p, o);
    source, o := GetU8(p, o);
    t := PeerTelemetry(node, packetSeq, timestamp, Position(lat, lon, alt), Velocity(north, east, down),
                       fix, valid != 0, 0, 0, 0, 0, mode, status, source);
  }

  method GetI16(b: seq<uint8>, o: nat) returns (v: int16, next: nat)
    requires o + 2 <= |b|
    ensures v == I16At(b, o) && next == o + 2
  {
    var u;
    u, next := GetU16(b, o);
    v := AsInt16(u);
  }

  method ReadRange(p: seq<uint8>) returns (r: RangeResult)
    requires |p| >= NAV_TELEMETRY_RANGE_RESULT_LEN
    ensures r == RangeIn(p)
  {
    var peer, o := GetU8(p, 0);
    var status, timestamp, range, sigma, rssi, snr, attempt, requestId;
    status, o := GetU8(p, o);
    timestamp, o := GetU32(p, o);
    range, o := GetU32(p, o);
    sigma, o := GetU32(p, o);
    rssi, o := GetI16(p, o);
    snr, o := GetI16(p, o);
    attempt, o := GetU8(p, o);
    requestId, o := GetU16(p, o);
    r := RangeResult(peer, requestId, timestamp, range, sigma, rssi, snr, status == 0);
  }

  method ReadFailure(p: seq<uint8>) returns (f: RangeFailure)
    requires |p| >= NAV_TELEMETRY_RANGE_FAIL_LEN
    ensures f == FailureIn(p)
  {
    var peer, o := GetU8(p, 0);
    var reason, timestamp, attempt, ignored, requestId;
    reason, o := GetU8(p, o);
    timestamp, o := GetU32(p, o);
    attempt, o := GetU8(p, o);
    ignored, o := GetI16(p, o);
    ignored, o := GetI16(p, o);
    requestId, o := GetU16(p, o);
    f := RangeFailure(peer, requestId, timestamp, reason);
  }

  /** Decodes a received frame into the event it stands for. */
  method ReadEvent(bytes: seq<uint8>, now: uint32, rssiDbm: int16, snrDb: int16) returns (r: Result<NavState.Event>)
    ensures r == DecodeEvent(bytes, now, rssiDbm, snrDb)
  {
    var decoded := DecodeFrame(bytes);
    if decoded.Failure? {
      return Failure(decoded.status);
    }
    var f := decoded.value;
    if f.kind == NAV_RADIO_MSG_BEACON_RX {
      if |f.payload| < NAV_TELEMETRY_BEACON_LEN {
        return Failure(BadFrame);
      }
      var t := ReadTelemetry(f.payload);
      return Success(NavState.BeaconEvent(now, PeerBeacon(t, rssiDbm, snrDb)));
    }
    if f.kind == NAV_RADIO_MSG_RANGE_RESULT {
      if |f.payload| < NAV_TELEMETRY_RANGE_RESULT_LEN {
        return Failure(BadFrame);
      }
      var range := ReadRange(f.payload);
      return Success(NavState.RangeEvent(now, range));
    }
    if f.kind == NAV_RADIO_MSG_RANGE_FAIL {
      if |f.payload| < NAV_TELEMETRY_RANGE_FAIL_LEN {
        return Failure(BadFrame);
      }
      var failure := ReadFailure(f.payload);
      return Success(NavState.RangeFailEvent(now, failure));
    }
    return Failure(NotImplemented);
  }

  /** What of a node's telemetry reaches its peers. */
  function OnWire(t: PeerTelemetry): PeerTelemetry {
    t.(satellites := 0, hdopCenti := 0, haccMm := 0, vaccMm := 0)
  }

  lemma TelemetryCarried(t: PeerTelemetry)
    ensures TelemetryIn(BeaconPayload(t)) == OnWire(t)
  {
    var p := BeaconPayload(t);
    WordAt(p, 1, t.packetSeq);
    WordAt(p, 5, t.timestampMs);
    IntAt(p, 9, t.position.latE7);
    IntAt(p, 13, t.position.lonE7);
    IntAt(p, 17, t.position.altMm);
    IntAt(p, 21, t.velocity.northMmps);
    IntAt(p, 25, t.velocity.eastMmps);
    IntAt(p, 29, t.velocity.downMmps);
  }

  lemma RangeCarried(r: RangeResult)
    ensures RangeIn(RangePayload(r)) == r
  {
    var p := RangePayload(r);
    WordAt(p, 2, r.timestampMs);
    WordAt(p, 6, r.rangeMm);
    WordAt(p, 10, r.rangeSigmaMm);
    ShortAt(p, 14, r.rssiDbm);
    ShortAt(p, 16, r.snrDb);
    HalfAt(p, 19, r.requestId);
  }

  /** A transmitted beacon arrives as the event the core consumes, with every wire-carried field intact. */
  lemma BeaconRoundTrip(t: PeerTelemetry, seqNo: uint16, now: uint32, rssiDbm: int16, snrDb: int16)
    ensures DecodeEvent(FrameBytes(BeaconFrame(t, seqNo)), now, rssiDbm, snrDb)
         == Success(NavState.BeaconEvent(now, PeerBeacon(OnWire(t), rssiDbm, snrDb)))
  {
    DecodeInvertsEncode(BeaconFrame(t, seqNo));
    TelemetryCarried(t);
  }

  lemma RangeRoundTrip(r: RangeResult, seqNo: uint16, now: uint32, rssiDbm: int16, snrDb: int16)
    ensures DecodeEvent(FrameBytes(RangeFrame(r, seqNo)), now, rssiDbm, snrDb) == Success(NavState.RangeEvent(now, r))
  {
    DecodeInvertsEncode(RangeFrame(r, seqNo));
    RangeCarried(r);
  }

  /** Encodes a node's own telemetry as a complete frame. */
  method EncodeBeacon(t: PeerTelemetry, seqNo: uint16, out: array<uint8>) returns (status: Status, length: nat)
    modifies out
    ensures status == if out.Length < NAV_RADIO_HEADER_LEN + NAV_TELEMETRY_BEACON_LEN then BadFrame else Ok
    ensures status.Ok? ==> length <= out.Length && out[..length] == FrameBytes(BeaconFrame(t, seqNo))
    ensures !status.Ok? ==> out[..] == old(out[..])
  {
    var p := new uint8[NAV_TELEMETRY_BEACON_LEN];
    var o := 0;
    o := PutU8(p, o, t.nodeId, []);
    o := PutU32(p, o, t.packetSeq, p[..o]);
    o := PutU32(p, o, t.timestampMs, p[..o]);
    o := PutI32x3(p, o, t.position.latE7, t.position.lonE7, t.position.altMm, p[..o]);
    o := PutI32x3(p, o, t.velocity.northMmps, t.velocity.eastMmps, t.velocity.downMmps, p[..o]);
    o := PutU8(p, o, t.fixType, p[..o]);
    o := PutU8(p, o, if t.gnssValid then 1 else 0, p[..o]);
    o := PutU8(p, o, t.navMode, p[..o]);
    o := PutU8(p, o, t.solutionStatus, p[..o]);
    o := PutU8(p, o, t.solutionSource, p[..o]);
    o := PutI16(p, o, 0, p[..o]);
    o := PutI16(p, o, 0, p[..o]);
    o := PutU8(p, o, 0, p[..o]);
    assert [] + [t.nodeId] == [t.nodeId];
    status, length := EncodeFrame(Frame(NAV_RADIO_MSG_BEACON_RX, seqNo, p[..o]), out);
  }

  method EncodeRange(r: RangeResult, seqNo: uint16, out: array<uint8>) returns (status: Status, length: nat)
    modifies out
    ensures status == if out.Length < NAV_RADIO_HEADER_LEN + NAV_TELEMETRY_RANGE_RESULT_LEN then BadFrame else Ok
    ensures status.Ok? ==> length <= out.Length && out[..length] == FrameBytes(RangeFrame(r, seqNo))
    ensures !status.Ok? ==> out[..] == old(out[..])
  {
    var p := new uint8[NAV_TELEMETRY_RANGE_RESULT_LEN];
    var o := 0;
    o := PutU8(p, o, r.peerId, []);
    o := PutU8(p, o, if r.valid then 0 else 1, p[..o]);
    o := PutU32(p, o, r.timestampMs, p[..o]);
    o := PutU32(p, o, r.rangeMm, p[..o]);
    o := PutU32(p, o, r.rangeSigmaMm, p[..o]);
    o := PutI16(p, o, r.rssiDbm, p[..o]);
    o := PutI16(p, o, r.snrDb, p[..o]);
    o := PutU8(p, o, 1, p[..o]);
    o := PutU16(p, o, r.requestId, p[..o]);
    assert [] + [r.peerId] == [r.peerId];
    status, length := EncodeFrame(Frame(NAV_RADIO_MSG_RANGE_RESULT, seqNo, p[..o]), out);
  }

  // ---- quality report ---------------------------------------------------

  const NAV_TELEMETRY_NODE_QUALITY_REPORT_LEN := 42

  function ClampedUnit(v: real): real {
    if v <= 0.0 then 0.0 else if v >= 1.0 then 1.0 else v
  }

  function QualityToByte(v: real): uint8 {
    if v <= 0.0 then 0 else if v >= 1.0 then 255 else (v * 255.0 + 0.5).Floor
  }

  function QualityFromByte(b: uint8): real {
    (b as real) / 255.0
  }

  function Saturate16(v: uint32): uint16 {
    if v > 65535 then 65535 else v
  }

  function ClampAnchorCount(n: uint8): uint8 {
    if n > NAV_TRILAT_ANCHOR_COUNT then NAV_TRILAT_ANCHOR_COUNT else n
  }

  /** Quantising loses at most half a step, and quantising again loses nothing more. */
  lemma QuantisedOnce(v: real)
    ensures -1.0 / 510.0 <= QualityFromByte(QualityToByte(v)) - ClampedUnit(v) <= 1.0 / 510.0
    ensures QualityToByte(QualityFromByte(QualityToByte(v))) == QualityToByte(v)
  {
    var b := QualityToByte(v);
    ByteSurvives(b);
  }

  lemma ByteSurvives(b: uint8)
    ensures QualityToByte(QualityFromByte(b)) == b
  {
    var q := QualityFromByte(b);
    assert q * 255.0 == b as real;
    assert ((b as real) + 0.5).Floor == b;
  }

  predicate WellFormed(r: QualityReport) {
    |r.anchorIds| == NAV_TRILAT_ANCHOR_COUNT
  }

  /** The report's identity, anchors and scores. */
  function ReportHead(r: QualityReport): (b: seq<uint8>)
    requires WellFormed(r)
    ensures |b| == 12
  {
    [r.nodeId] + [r.navMode] + [r.solutionStatus] + [r.solutionSource] + [ClampAnchorCount(r.numAnchors)]
    + r.anchorIds + [r.fixType] + [r.satellites]
    + [QualityToByte(r.geometryScore)] + [QualityToByte(r.totalQuality)]
  }

  function ReportPayload(r: QualityReport): (b: seq<uint8>)
    requires WellFormed(r)
    ensures |b| == NAV_TELEMETRY_NODE_QUALITY_REPORT_LEN
  {
    ReportHead(r)
    + LE16(Saturate16(r.residualRmsMm)) + LE16(Saturate16(r.maxResidualMm)) + LE16(r.hdopCenti)
    + LE32(r.haccMm) + LE32(r.vaccMm)
    + LE32x3(r.position.latE7, r.position.lonE7, r.position.altMm)
    + LE32(r.packetSeq)
  }

  function ReportFrame(r: QualityReport, seqNo: uint16): Frame
    requires WellFormed(r)
  {
    Frame(NAV_RADIO_MSG_NODE_QUALITY_REPORT, seqNo, ReportPayload(r))
  }

  function ReportIn(p: seq<uint8>): QualityReport
    requires |p| >= NAV_TELEMETRY_NODE_QUALITY_REPORT_LEN
  {
    QualityReport(p[0], p[1], p[2], p[3], ClampAnchorCount(p[4]), [p[5], p[6], p[7]], p[8], p[9],
                  QualityFromByte(p[10]), QualityFromByte(p[11]), U16At(p, 12), U16At(p, 14), U16At(p, 16),
                  U32At(p, 18), U32At(p, 22), Position(I32At(p, 26), I32At(p, 30), I32At(p, 34)), U32At(p, 38))
  }

  function DecodeReport(f: Frame): Result<QualityReport> {
    if f.kind != NAV_RADIO_MSG_NODE_QUALITY_REPORT then Failure(NotImplemented)
    else if |f.payload| < NAV_TELEMETRY_NODE_QUALITY_REPORT_LEN then Failure(BadFrame)
    else Success(ReportIn(f.payload))
  }

  /** What a report looks like after one trip: scores quantised, residuals saturated, count clamped. */
  function AfterTrip(r: QualityReport): QualityReport {
    r.(numAnchors := ClampAnchorCount(r.numAnchors),
       geometryScore := QualityFromByte(QualityToByte(r.geometryScore)),
       totalQuality := QualityFromByte(QualityToByte(r.totalQuality)),
       residualRmsMm := Saturate16(r.residualRmsMm), maxResidualMm := Saturate16(r.maxResidualMm))
  }

  lemma ReportBytes(r: QualityReport)
    requires WellFormed(r)
    ensures var p := ReportPayload(r);
      && p[0] == r.nodeId && p[1] == r.navMode && p[2] == r.solutionStatus && p[3] == r.solutionSource
      && p[4] == ClampAnchorCount(r.numAnchors) && [p[5], p[6], p[7]] == r.anchorIds
      && p[8] == r.fixType && p[9] == r.satellites
      && p[10] == QualityToByte(r.geometryScore) && p[11] == QualityToByte(r.totalQuality)
  {
    var p := ReportPayload(r);
    assert r.anchorIds == [p[5], p[6], p[7]];
  }

  lemma ReportWords(r: QualityReport)
    requires WellFormed(r)
    ensures var p := ReportPayload(r);
      && U16At(p, 12) == Saturate16(r.residualRmsMm) && U16At(p, 14) == Saturate16(r.maxResidualMm)
      && U16At(p, 16) == r.hdopCenti && U32At(p, 18) == r.haccMm && U32At(p, 22) == r.vaccMm
      && I32At(p, 26) == r.position.latE7 && I32At(p, 30) == r.position.lonE7 && I32At(p, 34) == r.position.altMm
      && U32At(p, 38) == r.packetSeq
  {
    var p := ReportPayload(r);
    HalfAt(p, 12, Saturate16(r.residualRmsMm));
    HalfAt(p, 14, Saturate16(r.maxResidualMm));
    HalfAt(p, 16, r.hdopCenti);
    WordAt(p, 18, r.haccMm);
    WordAt(p, 22, r.vaccMm);
    IntAt(p, 26, r.position.latE7);
    IntAt(p, 30, r.position.lonE7);
    IntAt(p, 34, r.position.altMm);
    WordAt(p, 38, r.packetSeq);
  }

  lemma ReportCarried(r: QualityReport)
    requires WellFormed(r)
    ensures ReportIn(ReportPayload(r)) == AfterTrip(r)
  {
    ReportBytes(r);
    ReportWords(r);
  }

  /** A quality report arrives with its scores within 1/510 of the clamped originals, its residuals saturated and
      everything else intact; encoding what arrived gives the same bytes again. */
  lemma ReportRoundTrip(r: QualityReport, seqNo: uint16)
    requires WellFormed(r)
    ensures DecodeReport(ReportFrame(r, seqNo)) == Success(AfterTrip(r))
    ensures var got := AfterTrip(r);
      && -1.0 / 510.0 <= got.geometryScore - ClampedUnit(r.geometryScore) <= 1.0 / 510.0
      && -1.0 / 510.0 <= got.totalQuality - ClampedUnit(r.totalQuality) <= 1.0 / 510.0
      && WellFormed(got) && ReportFrame(got, seqNo) == ReportFrame(r, seqNo)
  {
    ReportCarried(r);
    QuantisedOnce(r.geometryScore);
    QuantisedOnce(r.totalQuality);
  }

  method PutBytes(b: array<uint8>, o: nat, bytes: seq<uint8>, ghost done: seq<uint8>) returns (next: nat)
    requires Holds(b, o, done) && o + |bytes| <= b.Length
    modifies b
    ensures Holds(b, next, done + bytes)
  {
    next := o;
    for i := 0 to |bytes|
      invariant Holds(b, next, done + bytes[..i])
    {
      next := PutU8(b, next, bytes[i], b[..next]);
    }
  }

  method PutReportHead(p: array<uint8>, r: QualityReport) returns (o: nat)
    requires WellFormed(r) && p.Length == NAV_TELEMETRY_NODE_QUALITY_REPORT_LEN
    modifies p
    ensures Holds(p, o, ReportHead(r))
  {
    o := PutU8(p, 0, r.nodeId, []);
    o := PutU8(p, o, r.navMode, p[..o]);
    o := PutU8(p, o, r.solutionStatus, p[..o]);
    o := PutU8(p, o, r.solutionSource, p[..o]);
    o := PutU8(p, o, ClampAnchorCount(r.numAnchors), p[..o]);
    o := PutBytes(p, o, r.anchorIds, p[..o]);
    o := PutU8(p, o, r.fixType, p[..o]);
    o := PutU8(p, o, r.satellites, p[..o]);
    o := PutU8(p, o, QualityToByte(r.geometryScore), p[..o]);
    o := PutU8(p, o, QualityToByte(r.totalQuality), p[..o]);
    assert [] + [r.nodeId] == [r.nodeId];
  }

  /** Encodes a diagnostics report as a complete frame. */
  method EncodeReport(r: QualityReport, seqNo: uint16, out: array<uint8>) returns (status: Status, length: nat)
    requires WellFormed(r)
    modifies out
    ensures status == if out.Length < NAV_RADIO_HEADER_LEN + NAV_TELEMETRY_NODE_QUALITY_REPORT_LEN then BadFrame else Ok
    ensures status.Ok? ==> length <= out.Length && out[..length] == FrameBytes(ReportFrame(r, seqNo))
    ensures !status.Ok? ==> out[..] == old(out[..])
  {
    var p := new uint8[NAV_TELEMETRY_NODE_QUALITY_REPORT_LEN];
    var o := PutReportHead(p, r);
    o := PutU16(p, o, Saturate16(r.residualRmsMm), p[..o]);
    o := PutU16(p, o, Saturate16(r.maxResidualMm), p[..o]);
    o := PutU16(p, o, r.hdopCenti, p[..o]);
    o := PutU32(p, o, r.haccMm, p[..o]);
    o := PutU32(p, o, r.vaccMm, p[..o]);
    o := PutI32x3(p, o, r.position.latE7, r.position.lonE7, r.position.altMm, p[..o]);
    o := PutU32(p, o, r.packetSeq, p[..o]);
    status, length := EncodeFrame(Frame(NAV_RADIO_MSG_NODE_QUALITY_REPORT, seqNo, p[..o]), out);
  }
}
