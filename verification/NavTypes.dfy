/** Values shared by the navigation modules. Fields that travel over the air as
    an enumeration code keep that code as a byte, because the receiver casts
    whatever byte arrives. */
module NavTypes {
  import opened Words

  const NAV_MAX_NODES := 4
  const NAV_TRILAT_ANCHOR_COUNT := 3
  const NAV_INVALID_NODE_ID: uint8 := 0xFF
  const NAV_GNSS_FIX_NONE: uint8 := 0
  const NAV_GNSS_FIX_3D: uint8 := 3
  const NAV_GNSS_FIX_RTK_FLOAT: uint8 := 4
  const NAV_GNSS_FIX_RTK_FIXED: uint8 := 5

  datatype Option<+T> = None | Some(value: T)

  datatype Status = Ok | NotFound | NoSpace | BadFrame | NotImplemented

  datatype Result<+T> = Success(value: T) | Failure(status: Status)

  /** No node id occurs twice. */
  predicate Distinct(ids: seq<uint8>) {
    forall i, j :: 0 <= i < j < |ids| ==> ids[i] != ids[j]
  }

  datatype NavMode = Boot | GnssOk | RadioNavOk | RadioNavDegraded | NoNavSolution

  datatype SolutionStatus = NoSolution | GnssDirect | Radio3D | Degraded | Rejected

  datatype SolutionSource = SourceNone | SourceLocalGnss | SourceRadio3D

  datatype RejectReason =
    | NotRejected
    | StaleTelemetry
    | StaleRange
    | BadGnss
    | BadPosition
    | BadRangeSigma
    | RangeOutlier
    | BadGeometry
    | NotEnoughAnchors
    | MissingLocalAltitude
    | TrilaterationFailed

  datatype AltitudeSource = AltNone | AltGnss | AltBaro | AltFc | AltSim | AltManual

  datatype SolveOutcome =
    | OutcomeNone
    | OutcomeGnssDirect
    | OutcomeSolved
    | OutcomeRejected
    | OutcomeSkippedCadence
    | OutcomeSkippedUnchanged

  datatype Position = Position(latE7: int32, lonE7: int32, altMm: int32)

  const ZERO_POSITION := Position(0, 0, 0)

  datatype Velocity = Velocity(northMmps: int32, eastMmps: int32, downMmps: int32)

  datatype GnssSample = GnssSample(
    nodeId: uint8,
    timestampMs: uint32,
    position: Position,
    velocity: Velocity,
    fixType: uint8,
    valid: bool,
    satellites: uint8,
    hdopCenti: uint16,
    haccMm: uint32,
    vaccMm: uint32)

  const ZERO_SAMPLE :=
    GnssSample(0, 0, ZERO_POSITION, Velocity(0, 0, 0), NAV_GNSS_FIX_NONE, false, 0, 0, 0, 0)

  predicate SampleIsUsable(sample: GnssSample) {
    sample.valid && sample.fixType >= NAV_GNSS_FIX_3D
  }

  datatype LocalAltitude = LocalAltitude(altMm: int32, timestampMs: uint32, source: AltitudeSource, valid: bool)

  datatype PeerTelemetry = PeerTelemetry(
    nodeId: uint8,
    packetSeq: uint32,
    timestampMs: uint32,
    position: Position,
    velocity: Velocity,
    fixType: uint8,
    gnssValid: bool,
    satellites: uint8,
    hdopCenti: uint16,
    haccMm: uint32,
    vaccMm: uint32,
    navMode: uint8,
    solutionStatus: uint8,
    solutionSource: uint8)

  datatype PeerBeacon = PeerBeacon(telemetry: PeerTelemetry, rssiDbm: int16, snrDb: int16)

  datatype RangeResult = RangeResult(
    peerId: uint8,
    requestId: uint16,
    timestampMs: uint32,
    rangeMm: uint32,
    rangeSigmaMm: uint32,
    rssiDbm: int16,
    snrDb: int16,
    valid: bool)

  datatype RangeFailure = RangeFailure(peerId: uint8, requestId: uint16, timestampMs: uint32, reason: uint8)

  /** What the core knows of one peer; slot `i` of the table describes node `i`. */
  datatype PeerState = PeerState(
    nodeId: uint8,
    present: bool,
    lastTelemetryMs: uint32,
    lastRangeMs: uint32,
    packetSeq: uint32,
    lastRangeRequestId: uint16,
    position: Position,
    rangePosition: Position,
    rangePositionMs: uint32,
    velocity: Velocity,
    fixType: uint8,
    gnssValid: bool,
    satellites: uint8,
    hdopCenti: uint16,
    haccMm: uint32,
    vaccMm: uint32,
    navMode: uint8,
    solutionStatus: uint8,
    solutionSource: uint8,
    rangeMm: uint32,
    rangeSigmaMm: uint32,
    rangeValid: bool,
    rangePositionValid: bool,
    rssiDbm: int16,
    snrDb: int16,
    telemetryQuality: real,
    rangeQuality: real,
    anchorQuality: real,
    lastResidualM: real,
    lastReject: RejectReason)
}
