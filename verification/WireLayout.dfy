/** The bytes on the air, as the protocol's packed structures lay them out: fields in order, least significant byte first,
    negative numbers in two's complement. */
module WireLayout {
  import opened Words
  import opened NavTypes
  import NavState
  import opened RadioFrame
  import opened Telemetry

  /** Two bytes at `o`, the least significant first. */
  predicate HalfIs(p: seq<uint8>, o: nat, v: int) {
    o + 2 <= |p| && p[o] == v % 0x100 && p[o + 1] == v / 0x100 % 0x100
  }

  /** Four bytes at `o`, the least significant first; Euclidean quotients give the two's complement of negative numbers. */
  predicate WordIs(p: seq<uint8>, o: nat, v: int) {
    && o + 4 <= |p| && p[o] == v % 0x100 && p[o + 1] == v / 0x100 % 0x100
    && p[o + 2] == v / 0x1_0000 % 0x100 && p[o + 3] == v / 0x100_0000 % 0x100
  }

  predicate WordsAre(p: seq<uint8>, o: nat, x: int, y: int, z: int) {
    WordIs(p, o, x) && WordIs(p, o + 4, y) && WordIs(p, o + 8, z)
  }

  lemma UnsignedWord(v: uint32)
    ensures WordIs(LE32(v), 0, v)
  {
  }

  lemma UnsignedHalf(v: uint16)
    ensures HalfIs(LE16(v), 0, v)
  {
  }

  /** A whole multiple of 256 more leaves the low byte alone. */
  lemma SameLowByte(x: int, k: int)
    ensures (x + 0x100 * k) % 0x100 == x % 0x100
  {
  }

  lemma Shifted(v: int)
    ensures (v + TWO_32) / 0x100 == v / 0x100 + 0x100_0000
    ensures (v + TWO_32) / 0x1_0000 == v / 0x1_0000 + 0x1_0000
    ensures (v + TWO_32) / 0x100_0000 == v / 0x100_0000 + 0x100
  {
  }

  lemma SignedWord(v: int32)
    ensures WordIs(LE32(FromInt32(v)), 0, v)
  {
    UnsignedWord(FromInt32(v));
    if v < 0 {
      Shifted(v);
      SameLowByte(v, 0x100_0000);
      SameLowByte(v / 0x100, 0x1_0000);
      SameLowByte(v / 0x1_0000, 0x100);
      SameLowByte(v / 0x100_0000, 1);
    }
  }

  lemma SignedHalf(v: int16)
    ensures HalfIs(LE16(FromInt16(v)), 0, v)
  {
  }

  /** The part `b` of a payload stands at `o`. */
  predicate Within(p: seq<uint8>, o: nat, b: seq<uint8>) {
    o + |b| <= |p| && forall k :: 0 <= k < |b| ==> p[o + k] == b[k]
  }

  lemma WordWithin(p: seq<uint8>, o: nat, v: uint32)
    requires Within(p, o, LE32(v))
    ensures WordIs(p, o, v)
  {
    UnsignedWord(v);
    SameWord(p, o, LE32(v), v);
  }

  lemma SameWord(p: seq<uint8>, o: nat, b: seq<uint8>, v: int)
    requires |b| == 4 && Within(p, o, b) && WordIs(b, 0, v)
    ensures WordIs(p, o, v)
  {
    assert p[o + 0] == b[0] && p[o + 1] == b[1] && p[o + 2] == b[2] && p[o + 3] == b[3];
  }

  lemma SameHalf(p: seq<uint8>, o: nat, b: seq<uint8>, v: int)
    requires |b| == 2 && Within(p, o, b) && HalfIs(b, 0, v)
    ensures HalfIs(p, o, v)
  {
    assert p[o + 0] == b[0] && p[o + 1] == b[1];
  }

  lemma HalfWithin(p: seq<uint8>, o: nat, v: uint16)
    requires Within(p, o, LE16(v))
    ensures HalfIs(p, o, v)
  {
    UnsignedHalf(v);
    SameHalf(p, o, LE16(v), v);
  }

  lemma ShortWithin(p: seq<uint8>, o: nat, v: int16)
    requires Within(p, o, LE16(FromInt16(v)))
    ensures HalfIs(p, o, v)
  {
    SignedHalf(v);
    SameHalf(p, o, LE16(FromInt16(v)), v);
  }

  lemma IntWithin(p: seq<uint8>, o: nat, v: int32)
    requires Within(p, o, LE32(FromInt32(v)))
    ensures WordIs(p, o, v)
  {
    SignedWord(v);
    SameWord(p, o, LE32(FromInt32(v)), v);
  }

  lemma TripleWithin(p: seq<uint8>, o: nat, x: int32, y: int32, z: int32)
    requires Within(p, o, LE32x3(x, y, z))
    ensures WordsAre(p, o, x, y, z)
  {
    var a, b, c := LE32(FromInt32(x)), LE32(FromInt32(y)), LE32(FromInt32(z));
    var all := LE32x3(x, y, z);
    forall k | 0 <= k < 4
      ensures p[o + k] == a[k] && p[o + 4 + k] == b[k] && p[o + 8 + k] == c[k]
    {
      assert all[k] == a[k] && all[4 + k] == b[k] && all[8 + k] == c[k];
      assert p[o + (4 + k)] == all[4 + k] && p[o + (8 + k)] == all[8 + k];
    }
    IntWithin(p, o, x);
    IntWithin(p, o + 4, y);
    IntWithin(p, o + 8, z);
  }

  // ---- the messages -----------------------------------------------------

  /** The envelope: the letters N and R, the type, the sequence number, the payload's length, the payload. */
  lemma FrameLaid(f: Frame)
    requires Sendable(f)
    ensures var b := FrameBytes(f);
      && |b| == 6 + |f.payload| && b[0] == 0x4e && b[1] == 0x52 && b[2] == f.kind && HalfIs(b, 3, f.seqNo)
      && b[5] == |f.payload| && b[6..] == f.payload
  {
  }

  lemma HeartbeatLaid(h: Heartbeat, seqNo: uint16)
    ensures var f := HeartbeatFrame(h, seqNo);
      && f.kind == 64 && f.seqNo == seqNo && |f.payload| == 18 && f.payload[0] == h.nodeId
      && WordIs(f.payload, 1, h.uptimeMs) && WordIs(f.payload, 5, h.statusFlags) && WordIs(f.payload, 9, h.frameIndex)
      && f.payload[13] == h.slotIndex && HalfIs(f.payload, 14, h.slotMs) && HalfIs(f.payload, 16, h.slotElapsedMs)
  {
    var p := HeartbeatPayload(h);
    WordWithin(p, 1, h.uptimeMs);
    WordWithin(p, 5, h.statusFlags);
    WordWithin(p, 9, h.frameIndex);
    HalfWithin(p, 14, h.slotMs);
    HalfWithin(p, 16, h.slotElapsedMs);
  }

  lemma DebugLaid(d: DebugEnable, seqNo: uint16)
    ensures var f := DebugFrame(d, seqNo);
      && f.kind == 71 && f.seqNo == seqNo && |f.payload| == 3 && f.payload[0] == d.originNodeId
      && HalfIs(f.payload, 1, d.ttlMs)
  {
    HalfWithin(DebugFrame(d, seqNo).payload, 1, d.ttlMs);
  }

  lemma BeaconWordsLaid(t: PeerTelemetry)
    ensures var p := BeaconPayload(t);
      && WordIs(p, 1, t.packetSeq) && WordIs(p, 5, t.timestampMs)
      && WordsAre(p, 9, t.position.latE7, t.position.lonE7, t.position.altMm)
  {
    var p := BeaconPayload(t);
    WordWithin(p, 1, t.packetSeq);
    WordWithin(p, 5, t.timestampMs);
    TripleWithin(p, 9, t.position.latE7, t.position.lonE7, t.position.altMm);
  }

  lemma BeaconVelocityLaid(t: PeerTelemetry)
    ensures WordsAre(BeaconPayload(t), 21, t.velocity.northMmps, t.velocity.eastMmps, t.velocity.downMmps)
  {
    TripleWithin(BeaconPayload(t), 21, t.velocity.northMmps, t.velocity.eastMmps, t.velocity.downMmps);
  }

  lemma BeaconBytesLaid(t: PeerTelemetry)
    ensures var p := BeaconPayload(t);
      && |p| == 43 && p[0] == t.nodeId && p[33] == t.fixType && p[34] == (if t.gnssValid then 1 else 0)
      && p[35] == t.navMode && p[36] == t.solutionStatus && p[37] == t.solutionSource && p[38..] == [0, 0, 0, 0, 0]
  {
  }

  lemma BeaconLaid(t: PeerTelemetry, seqNo: uint16)
    ensures var f := BeaconFrame(t, seqNo);
      var p := f.payload;
      && f.kind == 66 && f.seqNo == seqNo && |p| == 43 && p[0] == t.nodeId
      && WordIs(p, 1, t.packetSeq) && WordIs(p, 5, t.timestampMs)
      && WordsAre(p, 9, t.position.latE7, t.position.lonE7, t.position.altMm)
      && WordsAre(p, 21, t.velocity.northMmps, t.velocity.eastMmps, t.velocity.downMmps)
      && p[33] == t.fixType && p[34] == (if t.gnssValid then 1 else 0) && p[35] == t.navMode
      && p[36] == t.solutionStatus && p[37] == t.solutionSource && p[38..] == [0, 0, 0, 0, 0]
  {
    BeaconWordsLaid(t);
    BeaconVelocityLaid(t);
    BeaconBytesLaid(t);
  }

  lemma RangeLaid(r: RangeResult, seqNo: uint16)
    ensures var f := RangeFrame(r, seqNo);
      var p := f.payload;
      && f.kind == 67 && f.seqNo == seqNo && |p| == 21 && p[0] == r.peerId && p[1] == (if r.valid then 0 else 1)
      && WordIs(p, 2, r.timestampMs) && WordIs(p, 6, r.rangeMm) && WordIs(p, 10, r.rangeSigmaMm)
      && HalfIs(p, 14, r.rssiDbm) && HalfIs(p, 16, r.snrDb) && p[18] == 1 && HalfIs(p, 19, r.requestId)
  {
    var p := RangePayload(r);
    WordWithin(p, 2, r.timestampMs);
    WordWithin(p, 6, r.rangeMm);
    WordWithin(p, 10, r.rangeSigmaMm);
    ShortWithin(p, 14, r.rssiDbm);
    ShortWithin(p, 16, r.snrDb);
    HalfWithin(p, 19, r.requestId);
  }

  lemma ReportHeadLaid(r: QualityReport)
    requires WellFormed(r)
    ensures var p := ReportPayload(r);
      && p[0] == r.nodeId && p[1] == r.navMode && p[2] == r.solutionStatus && p[3] == r.solutionSource
      && p[4] == (if r.numAnchors > 3 then 3 else r.numAnchors) && p[5..8] == r.anchorIds
      && p[8] == r.fixType && p[9] == r.satellites
      && p[10] == QualityToByte(r.geometryScore) && p[11] == QualityToByte(r.totalQuality)
  {
  }

  lemma ReportLaid(r: QualityReport, seqNo: uint16)
    requires WellFormed(r)
    ensures var f := ReportFrame(r, seqNo);
      var p := f.payload;
      && f.kind == 72 && f.seqNo == seqNo && |p| == 42
      && HalfIs(p, 12, if r.residualRmsMm > 0xFFFF then 0xFFFF else r.residualRmsMm)
      && HalfIs(p, 14, if r.maxResidualMm > 0xFFFF then 0xFFFF else r.maxResidualMm)
      && HalfIs(p, 16, r.hdopCenti) && WordIs(p, 18, r.haccMm) && WordIs(p, 22, r.vaccMm)
      && WordsAre(p, 26, r.position.latE7, r.position.lonE7, r.position.altMm) && WordIs(p, 38, r.packetSeq)
  {
    var p := ReportPayload(r);
    HalfWithin(p, 12, Saturate16(r.residualRmsMm));
    HalfWithin(p, 14, Saturate16(r.maxResidualMm));
    HalfWithin(p, 16, r.hdopCenti);
    WordWithin(p, 18, r.haccMm);
    WordWithin(p, 22, r.vaccMm);
    TripleWithin(p, 26, r.position.latE7, r.position.lonE7, r.position.altMm);
    WordWithin(p, 38, r.packetSeq);
  }

  // ---- a failed exchange, which a node only receives --------------------

  /** The payload of a failed exchange; what stands at the other offsets is not used. */
  predicate FailureLaid(p: seq<uint8>, f: RangeFailure) {
    |p| >= 13 && p[0] == f.peerId && p[1] == f.reason && WordIs(p, 2, f.timestampMs) && HalfIs(p, 11, f.requestId)
  }

  lemma WordReads(p: seq<uint8>, o: nat, v: uint32)
    requires WordIs(p, o, v)
    ensures U32At(p, o) == v
  {
    WordAt(p, o, v);
  }

  lemma HalfReads(p: seq<uint8>, o: nat, v: uint16)
    requires HalfIs(p, o, v)
    ensures U16At(p, o) == v
  {
    HalfAt(p, o, v);
  }

  /** A failed exchange laid out as the protocol says arrives as that failure. */
  lemma FailureArrives(
    f: RangeFailure, p: seq<uint8>, seqNo: uint16, now: uint32, rssiDbm: int16, snrDb: int16)
    requires FailureLaid(p, f) && |p| <= 128
    ensures DecodeEvent(FrameBytes(Frame(68, seqNo, p)), now, rssiDbm, snrDb)
         == Success(NavState.RangeFailEvent(now, f))
  {
    DecodeInvertsEncode(Frame(68, seqNo, p));
    WordReads(p, 2, f.timestampMs);
    HalfReads(p, 11, f.requestId);
  }

  // ---- what the decoder makes of any layout -----------------------------

  predicate BeaconLayout(p: seq<uint8>, t: PeerTelemetry) {
    && |p| >= 43 && p[0] == t.nodeId && WordIs(p, 1, t.packetSeq) && WordIs(p, 5, t.timestampMs)
    && WordsAre(p, 9, t.position.latE7, t.position.lonE7, t.position.altMm)
    && WordsAre(p, 21, t.velocity.northMmps, t.velocity.eastMmps, t.velocity.downMmps)
    && p[33] == t.fixType && (p[34] == 0 <==> !t.gnssValid) && p[35] == t.navMode && p[36] == t.solutionStatus
    && p[37] == t.solutionSource
  }

  predicate RangeLayout(p: seq<uint8>, r: RangeResult) {
    && |p| >= 21 && p[0] == r.peerId && (p[1] == 0 <==> r.valid) && WordIs(p, 2, r.timestampMs) && WordIs(p, 6, r.rangeMm)
    && WordIs(p, 10, r.rangeSigmaMm) && HalfIs(p, 14, r.rssiDbm) && HalfIs(p, 16, r.snrDb) && HalfIs(p, 19, r.requestId)
  }

  lemma ByteOfInt(v: int32)
    ensures LE32(FromInt32(v)) == [v % 0x100, v / 0x100 % 0x100, v / 0x1_0000 % 0x100, v / 0x100_0000 % 0x100]
  {
    SignedWord(v);
  }

  lemma IntReads(p: seq<uint8>, o: nat, v: int32)
    requires WordIs(p, o, v)
    ensures I32At(p, o) == v
  {
    ByteOfInt(v);
    IntAt(p, o, v);
  }

  lemma ShortReads(p: seq<uint8>, o: nat, v: int16)
    requires HalfIs(p, o, v)
    ensures I16At(p, o) == v
  {
    SignedHalf(v);
    ShortAt(p, o, v);
  }

  /** A beacon laid out as the protocol says arrives as its telemetry; any non-zero byte marks the fix valid, and bytes
      past the layout are not read. */
  lemma BeaconArrives(t: PeerTelemetry, p: seq<uint8>, seqNo: uint16, now: uint32, rssiDbm: int16, snrDb: int16)
    requires BeaconLayout(p, t) && |p| <= 128
    ensures DecodeEvent(FrameBytes(Frame(66, seqNo, p)), now, rssiDbm, snrDb)
         == Success(NavState.BeaconEvent(
              now, PeerBeacon(t.(satellites := 0, hdopCenti := 0, haccMm := 0, vaccMm := 0), rssiDbm, snrDb)))
  {
    DecodeInvertsEncode(Frame(66, seqNo, p));
    WordReads(p, 1, t.packetSeq);
    WordReads(p, 5, t.timestampMs);
    IntReads(p, 9, t.position.latE7);
    IntReads(p, 13, t.position.lonE7);
    IntReads(p, 17, t.position.altMm);
    IntReads(p, 21, t.velocity.northMmps);
    IntReads(p, 25, t.velocity.eastMmps);
    IntReads(p, 29, t.velocity.downMmps);
  }

  /** So does a range result; only a zero status byte makes it valid. */
  lemma RangeArrives(r: RangeResult, p: seq<uint8>, seqNo: uint16, now: uint32, rssiDbm: int16, snrDb: int16)
    requires RangeLayout(p, r) && |p| <= 128
    ensures DecodeEvent(FrameBytes(Frame(67, seqNo, p)), now, rssiDbm, snrDb) == Success(NavState.RangeEvent(now, r))
  {
    DecodeInvertsEncode(Frame(67, seqNo, p));
    WordReads(p, 2, r.timestampMs);
    WordReads(p, 6, r.rangeMm);
    WordReads(p, 10, r.rangeSigmaMm);
    ShortReads(p, 14, r.rssiDbm);
    ShortReads(p, 16, r.snrDb);
    HalfReads(p, 19, r.requestId);
  }

  /** Anything else is refused: bad bytes, short payloads, and types that are no events. */
  lemma OthersRefused(f: Frame, now: uint32, rssiDbm: int16, snrDb: int16)
    requires Sendable(f)
    ensures DecodeEvent(FrameBytes(f), now, rssiDbm, snrDb).Failure?
      <==> !(f.kind == 66 && |f.payload| >= 43) && !(f.kind == 67 && |f.payload| >= 21) && !(f.kind == 68 && |f.payload| >= 13)
  {
    DecodeInvertsEncode(f);
  }
}
