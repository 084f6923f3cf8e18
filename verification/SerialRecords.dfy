/** The snapshot, range and node-quality records: their texts, computed from what they report, and their writers. */
module SerialRecords {
  import opened Words
  import opened NavTypes
  import opened NavState
  import NavInvariants
  import Telemetry
  import opened SerialJson
  import opened SerialScan

  // ---- formatted values -------------------------------------------------

  /** Formatting of a floating-point number with so many decimals. */
  type Decimals = (real, nat) -> string

  function Number(n: nat): Value {
    Bare(Decimal(n))
  }

  function SignedDecimal(x: int): (d: string)
    ensures IsBare(d)
  {
    if x < 0 then "-" + Decimal(-x) else Decimal(x)
  }

  function Signed(x: int): Value {
    Bare(SignedDecimal(x))
  }

  function Flag(b: bool): Value {
    Bare(if b then "true" else "false")
  }

  /** A nested object, shown as its own text. */
  function Nested(fields: seq<Field>): Value
    requires fields != []
  {
    Bare(Record(fields))
  }

  function Listed(items: seq<string>): string {
    if items == [] then ""
    else Listed(items[..|items| - 1]) + (if |items| == 1 then "" else ",") + items[|items| - 1]
  }

  function List(items: seq<string>): Value {
    Bare("[" + Listed(items) + "]")
  }

  function IdTexts(ids: seq<uint8>): seq<string> {
    seq(|ids|, i requires 0 <= i < |ids| => Decimal(ids[i]))
  }

  // ---- names and display rules ------------------------------------------

  const SOURCE_NONE: uint8 := 0
  const SOURCE_LOCAL_GNSS: uint8 := 1
  const SOURCE_RADIO_3D: uint8 := 2
  const SOLUTION_NONE: uint8 := 0
  const SOLUTION_GNSS_DIRECT: uint8 := 1
  const SOLUTION_RADIO_3D: uint8 := 2
  const SOLUTION_DEGRADED: uint8 := 3

  function SourceCode(source: SolutionSource): uint8 {
    match source
    case SourceNone => SOURCE_NONE
    case SourceLocalGnss => SOURCE_LOCAL_GNSS
    case SourceRadio3D => SOURCE_RADIO_3D
  }

  function StatusCode(status: SolutionStatus): uint8 {
    match status
    case NoSolution => SOLUTION_NONE
    case GnssDirect => SOLUTION_GNSS_DIRECT
    case Radio3D => SOLUTION_RADIO_3D
    case Degraded => SOLUTION_DEGRADED
    case Rejected => 4
  }

  function ModeCode(mode: NavMode): uint8 {
    match mode
    case Boot => 0
    case GnssOk => 2
    case RadioNavOk => 5
    case RadioNavDegraded => 6
    case NoNavSolution => 7
  }

  function NameAt(names: seq<string>, code: nat): string {
    if code < |names| then names[code] else "UNKNOWN"
  }

  function ModeName(code: uint8): string {
    NameAt(["BOOT", "GNSS_ACQUIRE", "GNSS_OK", "GNSS_SUSPECT", "GPS_DENIED", "RADIO_NAV_OK", "RADIO_NAV_DEGRADED",
            "NO_NAV_SOLUTION", "DEMO_FORCED_DENIED"], code)
  }

  function StatusName(code: uint8): string {
    NameAt(["NONE", "GNSS_DIRECT", "RADIO_3D", "DEGRADED", "REJECTED"], code)
  }

  function SourceName(code: uint8): string {
    NameAt(["NONE", "LOCAL_GNSS", "RADIO_3D", "REPLAY", "SIM"], code)
  }

  function FailName(code: uint8): string {
    NameAt(["NONE", "TIMEOUT", "NO_RESPONSE", "RADIO_BUSY", "BAD_FRAME", "RANGING_ENGINE_ERROR", "ABORTED"], code)
  }

  function FixName(code: uint8): string {
    NameAt(["NONE", "UNKNOWN", "2D", "3D", "RTK_FLOAT", "RTK_FIXED"], code)
  }

  function RejectName(reason: RejectReason): string {
    match reason
    case NotRejected => "NONE"
    case StaleTelemetry => "STALE_TELEMETRY"
    case StaleRange => "STALE_RANGE"
    case BadGnss => "BAD_GNSS"
    case BadPosition => "BAD_POSITION"
    case BadRangeSigma => "BAD_RANGE_SIGMA"
    case RangeOutlier => "RANGE_OUTLIER"
    case BadGeometry => "BAD_GEOMETRY"
    case NotEnoughAnchors => "NOT_ENOUGH_ANCHORS"
    case MissingLocalAltitude => "MISSING_LOCAL_ALTITUDE"
    case TrilaterationFailed => "TRILATERATION_FAILED"
  }

  function OutcomeName(outcome: SolveOutcome): string {
    match outcome
    case OutcomeNone => "NONE"
    case OutcomeGnssDirect => "GNSS_DIRECT"
    case OutcomeSolved => "SOLVED"
    case OutcomeRejected => "REJECTED"
    case OutcomeSkippedCadence => "SKIPPED_CADENCE"
    case OutcomeSkippedUnchanged => "SKIPPED_UNCHANGED_INPUTS"
  }

  function PositionSourceName(source: uint8): string {
    if source == SOURCE_LOCAL_GNSS then "GNSS" else if source == SOURCE_RADIO_3D then "RADIO_3D" else "NONE"
  }

  predicate Displayable(source: uint8, status: uint8) {
    if source == SOURCE_LOCAL_GNSS then status == SOLUTION_GNSS_DIRECT
    else source == SOURCE_RADIO_3D && (status == SOLUTION_RADIO_3D || status == SOLUTION_DEGRADED)
  }

  predicate ShownDegraded(source: uint8, status: uint8) {
    source == SOURCE_RADIO_3D && status == SOLUTION_DEGRADED
  }

  function PeerSource(p: PeerState): uint8 {
    if p.solutionSource != SOURCE_NONE then p.solutionSource
    else if p.gnssValid then SOURCE_LOCAL_GNSS
    else SOURCE_NONE
  }

  function PeerStatus(p: PeerState): uint8 {
    if p.solutionStatus != SOLUTION_NONE then p.solutionStatus
    else if PeerSource(p) == SOURCE_LOCAL_GNSS then SOLUTION_GNSS_DIRECT
    else SOLUTION_NONE
  }

  /** In every reachable state the position is shown as valid exactly when there is a solution, as degraded exactly in
      degraded mode, and GNSS as the solution only beside a valid GNSS position. */
  lemma ShownAsSolved(num: Numerics, config: Config, events: seq<Event>, info: NodeInfo)
    ensures var sn := Run(num, Init(config), events).snapshot;
      var source, status := SourceCode(sn.source), StatusCode(sn.status);
      && (Displayable(source, status) <==> !sn.source.SourceNone?)
      && (Displayable(source, status) <==> sn.reject.NotRejected? && !sn.mode.Boot?)
      && (ShownDegraded(source, status) <==> sn.mode.RadioNavDegraded?)
      && (GnssUsage(info, sn) == "solution" ==> Displayable(source, status) && PositionSourceName(source) == "GNSS")
  {
    NavInvariants.EverConsistent(num, config, events);
  }

  /** A peer's position is shown as valid exactly when its source and status fit together, a status it leaves out
      counting as direct GNSS, and GNSS validity standing in for a source it leaves out. */
  lemma PeerShownValid(p: PeerState)
    ensures Displayable(PeerSource(p), PeerStatus(p))
      <==> || ((p.solutionSource == SOURCE_LOCAL_GNSS || (p.solutionSource == SOURCE_NONE && p.gnssValid))
               && (p.solutionStatus == SOLUTION_NONE || p.solutionStatus == SOLUTION_GNSS_DIRECT))
           || (p.solutionSource == SOURCE_RADIO_3D
               && (p.solutionStatus == SOLUTION_RADIO_3D || p.solutionStatus == SOLUTION_DEGRADED))
  {
  }

  // ---- runs of members --------------------------------------------------

  function Lead(separator: char, key: string): string {
    [separator, QUOTE] + key + [QUOTE, ':']
  }

  /** Members with their separators, leaving the object open. */
  function Members(fields: seq<Field>, separator: char): string {
    if fields == [] then "" else [separator] + Member(fields[0]) + Members(fields[1..], ',')
  }

  lemma {:induction false} TailSplits(run: seq<Field>, rest: seq<Field>, separator: char)
    requires run != []
    ensures Tail(run + rest, separator) == Members(run, separator) + Tail(rest, ',')
  {
    var first := [separator] + Member(run[0]);
    assert (run + rest)[1..] == run[1..] + rest;
    if |run| > 1 {
      TailSplits(run[1..], rest, ',');
    } else {
      assert run[1..] + rest == rest && Members(run[1..], ',') == "";
    }
    Regrouped(first, Members(run[1..], ','), Tail(rest, ','));
  }

  /** Writing a run of members moves it from what is left of the record to what is written. */
  lemma RunWritten(whole: string, written: string, run: seq<Field>, rest: seq<Field>, separator: char)
    requires run != [] && whole == written + Tail(run + rest, separator)
    ensures whole == written + Members(run, separator) + Tail(rest, ',')
  {
    TailSplits(run, rest, separator);
  }

  // ---- the range record -------------------------------------------------

  datatype RangeRecord = RangeRecord(
    timestampMs: uint32, fromId: uint8, toId: uint8, requestId: uint16, ok: bool, rangeMm: uint32,
    rangeSigmaMm: uint32, rssiDbm: int16, snrDb: int16, failReason: uint8, source: Option<string>)

  function SourceText(r: RangeRecord): string {
    match r.source
    case None => "log"
    case Some(t) => t
  }

  function RangeOpening(r: RangeRecord): (fields: seq<Field>)
    ensures fields != [] && WellFormed(fields)
  {
    [Field("type", Text("range")), Field("ts", Number(r.timestampMs)), Field("from_id", Number(r.fromId)),
     Field("to_id", Number(r.toId)), Field("request_id", Number(r.requestId)), Field("ok", Flag(r.ok))]
  }

  /** A range if there is one, else why there is none. */
  function RangeOutcome(r: RangeRecord): (fields: seq<Field>)
    ensures fields != [] && WellFormed(fields)
  {
    if r.ok then [Field("range_mm", Number(r.rangeMm)), Field("range_sigma_mm", Number(r.rangeSigmaMm))]
    else [Field("range_fail_reason", Text(FailName(r.failReason)))]
  }

  function RangeLink(r: RangeRecord): (fields: seq<Field>)
    ensures fields != [] && WellFormed(fields)
  {
    [Field("rssi_dbm", Signed(r.rssiDbm)), Field("snr_db", Signed(r.snrDb))]
  }

  function RangeFields(r: RangeRecord): (fields: seq<Field>)
    ensures fields != [] && WellFormed(fields)
  {
    RangeOpening(r) + (RangeOutcome(r) + (RangeLink(r) + [Field("source", Text(SourceText(r)))]))
  }

  lemma RangeGrouping(a: string, b: string, c: string, lead: string, quoted: string, end: string)
    ensures a + (b + (c + (lead + quoted + end))) == a + b + (c + lead) + quoted + end
  {
  }

  /** Three runs of members and a last text, as they are written. */
  lemma ThreeRunsAndText(a: seq<Field>, b: seq<Field>, c: seq<Field>, key: string, t: string)
    requires a != [] && b != [] && c != []
    ensures Tail(a + (b + (c + [Field(key, Text(t))])), '{')
         == Members(a, '{') + Members(b, ',') + (Members(c, ',') + Lead(',', key)) + Quoted(t) + "}"
  {
    var last := [Field(key, Text(t))];
    TailSplits(a, b + (c + last), '{');
    TailSplits(b, c + last, ',');
    TailSplits(c, last, ',');
    TextAlone(key, t);
    RangeGrouping(Members(a, '{'), Members(b, ','), Members(c, ','), Lead(',', key), Quoted(t), "}");
  }

  lemma TextAlone(key: string, t: string)
    ensures Tail([Field(key, Text(t))], ',') == Lead(',', key) + Quoted(t) + "}"
  {
    assert [Field(key, Text(t))][1..] == [];
    assert [','] + Member(Field(key, Text(t))) == Lead(',', key) + Quoted(t);
  }

  /** Writes a range record, as much of it as fits, and returns its full length. */
  method WriteRangeRecord(buf: array<char>, base: nat, cap: nat, r: RangeRecord) returns (total: nat)
    requires base + cap <= buf.Length
    modifies buf
    ensures total == |Record(RangeFields(r))| && Holds(buf[..], base, cap, Record(RangeFields(r)))
    ensures SameOutside(old(buf[..]), buf[..], base, cap)
  {
    var chunk := Members(RangeOpening(r), '{');
    ghost var s := chunk;
    total := Append(buf, base, cap, 0, chunk, "");
    assert "" + chunk == s;
    if r.ok {
      chunk := Members(
        [Field("range_mm", Number(r.rangeMm)), Field("range_sigma_mm", Number(r.rangeSigmaMm))], ',');
    } else {
      chunk := Members([Field("range_fail_reason", Text(FailName(r.failReason)))], ',');
    }
    total := Append(buf, base, cap, total, chunk, s);
    s := s + Members(RangeOutcome(r), ',');
    total := Append(buf, base, cap, total, Members(RangeLink(r), ',') + Lead(',', "source"), s);
    s := s + (Members(RangeLink(r), ',') + Lead(',', "source"));
    total := AppendEscaped(buf, base, cap, total, SourceText(r), s);
    s := s + Quoted(SourceText(r));
    total := Append(buf, base, cap, total, "}", s);
    ThreeRunsAndText(RangeOpening(r), RangeOutcome(r), RangeLink(r), "source", SourceText(r));
  }

  /** The scanner neither stops at this member nor is misled by it. */
  predicate Passes(f: Field, key: string) {
    f.key != key && (f.value.Text? ==> !Shadows(f.value.text, key))
  }

  lemma {:induction false} LookupPast(run: seq<Field>, rest: seq<Field>, key: string)
    requires forall f <- run :: Passes(f, key)
    ensures Lookup(run + rest, key) == Lookup(rest, key)
  {
    if run == [] {
      assert run + rest == rest;
    } else {
      assert (run + rest)[1..] == run[1..] + rest && Passes(run[0], key);
      LookupPast(run[1..], rest, key);
    }
  }

  /** What a range record answers for the keys of its texts. */
  function RangeAnswer(r: RangeRecord, key: string): Option<Value> {
    if key == "type" then Some(Text("range"))
    else if key == "source" then Some(Text(SourceText(r)))
    else if r.ok then None
    else Some(Text(FailName(r.failReason)))
  }

  lemma RangeOpeningPasses(r: RangeRecord, key: string)
    requires key in {"source", "range_fail_reason"}
    ensures forall f <- RangeOpening(r) :: Passes(f, key)
    ensures forall f <- RangeLink(r) :: Passes(f, key)
  {
  }

  lemma FailNameUpper(code: uint8)
    ensures FailName(code) != "" && FailName(code)[|FailName(code)| - 1] != 'e'
  {
  }

  lemma RangeOutcomePasses(r: RangeRecord)
    ensures forall f <- RangeOutcome(r) :: Passes(f, "source")
  {
    if !r.ok {
      FailNameUpper(r.failReason);
      OtherLastChar(FailName(r.failReason), "source");
    }
  }

  lemma LookupAlone(key: string, t: string, wanted: string)
    ensures Lookup([Field(key, Text(t))], wanted) == if key == wanted then Some(Text(t)) else None
  {
    assert [Field(key, Text(t))][1..] == [];
  }

  lemma RangeLookup(r: RangeRecord, key: string)
    requires key in {"type", "source", "range_fail_reason"}
    ensures Lookup(RangeFields(r), key) == RangeAnswer(r, key)
  {
    var source := [Field("source", Text(SourceText(r)))];
    if key != "type" {
      RangeOpeningPasses(r, key);
      LookupPast(RangeOpening(r), RangeOutcome(r) + (RangeLink(r) + source), key);
      LookupPast(RangeLink(r), source, key);
      LookupAlone("source", SourceText(r), key);
      if key == "source" {
        RangeOutcomePasses(r);
        LookupPast(RangeOutcome(r), RangeLink(r) + source, key);
      } else if r.ok {
        LookupPast(RangeOutcome(r), RangeLink(r) + source, key);
      }
    }
  }

  /** The scanner reads a range record's texts back: its type, its source whatever it is, and a fail reason exactly when
      the ranging failed, even where the source spells that key. */
  lemma RangeReadsBack(r: RangeRecord, key: string, cap: nat)
    requires cap > 0 && key in {"type", "source", "range_fail_reason"}
    ensures Extract(Record(RangeFields(r)), key, cap) == Read(RangeAnswer(r, key), cap)
  {
    RangeKeys(key);
    RangeLookup(r, key);
    LookupAnswers(RangeFields(r), key, cap, RangeAnswer(r, key));
  }

  lemma RangeKeys(key: string)
    requires key in {"type", "source", "range_fail_reason"}
    ensures IsKey(key) && |key| + 2 < NEEDLE_CAPACITY
  {
  }

  lemma LookupAnswers(fields: seq<Field>, key: string, cap: nat, answer: Option<Value>)
    requires fields != [] && WellFormed(fields) && IsKey(key) && cap > 0 && |key| + 2 < NEEDLE_CAPACITY
    requires Lookup(fields, key) == answer
    ensures Extract(Record(fields), key, cap) == Read(answer, cap)
  {
    ExtractIsLookup(fields, key, cap);
  }

  // ---- the node-quality record ------------------------------------------

  function PositionFields(p: Position): (fields: seq<Field>)
    ensures fields != []
  {
    [Field("lat_e7", Signed(p.latE7)), Field("lon_e7", Signed(p.lonE7)), Field("alt_mm", Signed(p.altMm))]
  }

  function AnchorsShown(r: Telemetry.QualityReport): (ids: seq<uint8>)
    requires |r.anchorIds| == NAV_TRILAT_ANCHOR_COUNT
    ensures |ids| <= NAV_TRILAT_ANCHOR_COUNT
  {
    r.anchorIds[..if r.numAnchors > NAV_TRILAT_ANCHOR_COUNT then NAV_TRILAT_ANCHOR_COUNT else r.numAnchors]
  }

  function QualityScores(r: Telemetry.QualityReport, fmt: Decimals): (fields: seq<Field>)
    requires |r.anchorIds| == NAV_TRILAT_ANCHOR_COUNT
    ensures fields != []
  {
    [Field("nav_mode", Text(ModeName(r.navMode))), Field("solution_status", Text(StatusName(r.solutionStatus))),
     Field("solution_source", Text(SourceName(r.solutionSource))),
     Field("residual_rms_m", Bare(fmt(r.residualRmsMm as real / 1000.0, 3))),
     Field("max_residual_m", Bare(fmt(r.maxResidualMm as real / 1000.0, 3))),
     Field("geometry_score", Bare(fmt(r.geometryScore, 3))), Field("total_quality", Bare(fmt(r.totalQuality, 3))),
     Field("num_anchors", Number(|AnchorsShown(r)|))]
  }

  function QualityReceiver(r: Telemetry.QualityReport): (fields: seq<Field>)
    ensures fields != []
  {
    [Field("fix_type", Text(FixName(r.fixType))), Field("satellites", Number(r.satellites)),
     Field("hdop_centi", Number(r.hdopCenti)), Field("hacc_mm", Number(r.haccMm)), Field("vacc_mm", Number(r.vaccMm))]
    + PositionFields(r.position) + [Field("packet_seq", Number(r.packetSeq))]
  }

  function QualityFields(r: Telemetry.QualityReport, fmt: Decimals): (fields: seq<Field>)
    requires |r.anchorIds| == NAV_TRILAT_ANCHOR_COUNT
    ensures fields != []
  {
    QualityScores(r, fmt) + ([Field("anchor_ids", List(IdTexts(AnchorsShown(r))))] + QualityReceiver(r))
  }

  function OriginText(origin: Option<string>): string {
    match origin
    case None => "peer"
    case Some(t) => t
  }

  function QualityEnvelope(r: Telemetry.QualityReport, timestampMs: uint32): (fields: seq<Field>)
    ensures fields != []
  {
    [Field("type", Text("node_quality")), Field("ts", Number(timestampMs)), Field("node_id", Number(r.nodeId))]
  }

  function QualityRecordFields(
    r: Telemetry.QualityReport, timestampMs: uint32, ageMs: uint32, origin: Option<string>, fmt: Decimals)
    : (fields: seq<Field>)
    requires |r.anchorIds| == NAV_TRILAT_ANCHOR_COUNT
    ensures fields != []
  {
    QualityEnvelope(r, timestampMs)
    + ([Field("origin", Text(OriginText(origin)))]
       + ([Field("age_ms", Number(ageMs))] + [Field("data", Nested(QualityFields(r, fmt)))]))
  }

  /** What is written between the origin and the anchor ids. */
  function QualityOpening(r: Telemetry.QualityReport, ageMs: uint32, fmt: Decimals): string
    requires |r.anchorIds| == NAV_TRILAT_ANCHOR_COUNT
  {
    Members([Field("age_ms", Number(ageMs))], ',') + Lead(',', "data") + Members(QualityScores(r, fmt), '{')
    + Lead(',', "anchor_ids") + "["
  }

  function QualityClosing(r: Telemetry.QualityReport): string {
    "]" + Members(QualityReceiver(r), ',') + "}}"
  }

  lemma ListInside(before: string, key: string, items: seq<string>, after: string)
    ensures before + Lead(',', key) + Shown(List(items)) + after
         == before + Lead(',', key) + "[" + Listed(items) + ("]" + after)
  {
  }

  /** A list in the middle of an object's members. */
  lemma ListWritten(fields: seq<Field>, head: seq<Field>, key: string, items: seq<string>, rest: seq<Field>)
    requires head != [] && fields == head + ([Field(key, List(items))] + rest)
    ensures Record(fields) == Members(head, '{') + Lead(',', key) + "[" + Listed(items) + ("]" + Tail(rest, ','))
  {
    var whole := Record(fields);
    TailSplits(head, [Field(key, List(items))] + rest, '{');
    MemberWritten(whole, Members(head, '{'), Field(key, List(items)), rest, ',', Lead(',', key));
    ListInside(Members(head, '{'), key, items, Tail(rest, ','));
  }

  lemma ClosedRun(run: seq<Field>)
    requires run != []
    ensures Tail(run, ',') == Members(run, ',') + "}"
  {
    TailSplits(run, [], ',');
    assert run + [] == run;
  }

  /** A run of members, an escaped text, a second run and a nested object. */
  lemma EnvelopeAroundObject(
    head: seq<Field>, key: string, t: string, run: seq<Field>, inner: string)
    requires head != [] && run != []
    ensures Tail(head + ([Field(key, Text(t))] + (run + [Field("data", Bare(inner))])), '{')
         == Members(head, '{') + Lead(',', key) + Quoted(t) + Members(run, ',') + Lead(',', "data") + inner + "}"
  {
    var named, data := Field(key, Text(t)), [Field("data", Bare(inner))];
    var whole := Tail(head + ([named] + (run + data)), '{');
    TailSplits(head, [named] + (run + data), '{');
    MemberWritten(whole, Members(head, '{'), named, run + data, ',', Lead(',', key));
    var s := Members(head, '{') + Lead(',', key) + Quoted(t);
    RunWritten(whole, s, run, data, ',');
    LastObject(whole, s + Members(run, ','), inner);
  }

  lemma LastObject(whole: string, written: string, inner: string)
    requires whole == written + Tail([Field("data", Bare(inner))], ',')
    ensures whole == written + Lead(',', "data") + inner + "}"
  {
    var data := Field("data", Bare(inner));
    assert [data] + [] == [data];
    MemberWritten(whole, written, data, [], ',', Lead(',', "data"));
  }

  lemma QualityText(
    r: Telemetry.QualityReport, timestampMs: uint32, ageMs: uint32, origin: Option<string>, fmt: Decimals)
    requires |r.anchorIds| == NAV_TRILAT_ANCHOR_COUNT
    ensures Record(QualityRecordFields(r, timestampMs, ageMs, origin, fmt))
         == (Members(QualityEnvelope(r, timestampMs), '{') + Lead(',', "origin")) + Quoted(OriginText(origin))
            + QualityOpening(r, ageMs, fmt) + Listed(IdTexts(AnchorsShown(r))) + QualityClosing(r)
  {
    QualityShape(QualityEnvelope(r, timestampMs), OriginText(origin), [Field("age_ms", Number(ageMs))],
                 QualityScores(r, fmt), IdTexts(AnchorsShown(r)), QualityReceiver(r));
  }

  lemma QualityShape(
    head: seq<Field>, origin: string, aged: seq<Field>, scores: seq<Field>, ids: seq<string>, rest: seq<Field>)
    requires head != [] && aged != [] && scores != [] && rest != []
    ensures var inner := Record(scores + ([Field("anchor_ids", List(ids))] + rest));
      Tail(head + ([Field("origin", Text(origin))] + (aged + [Field("data", Bare(inner))])), '{')
      == (Members(head, '{') + Lead(',', "origin")) + Quoted(origin)
         + (Members(aged, ',') + Lead(',', "data") + Members(scores, '{') + Lead(',', "anchor_ids") + "[")
         + Listed(ids) + ("]" + Members(rest, ',') + "}}")
  {
    var inner := Record(scores + ([Field("anchor_ids", List(ids))] + rest));
    EnvelopeAroundObject(head, "origin", origin, aged, inner);
    ListWritten(scores + ([Field("anchor_ids", List(ids))] + rest), scores, "anchor_ids", ids, rest);
    ClosedRun(rest);
    QualityGrouping(Members(head, '{') + Lead(',', "origin") + Quoted(origin), Members(aged, ','), Lead(',', "data"),
                    Members(scores, '{'), Lead(',', "anchor_ids"), Listed(ids), Members(rest, ','));
  }

  lemma QualityGrouping(s: string, aged: string, data: string, scores: string, key: string, ids: string, rest: string)
    ensures s + aged + data + (scores + key + "[" + ids + ("]" + (rest + "}"))) + "}"
         == s + (aged + data + scores + key + "[") + ids + ("]" + rest + "}}")
  {
    assert "}" + "}" == "}}";
  }

  /** Appends node ids one by one, a comma before each but the first. */
  method AppendIds(buf: array<char>, base: nat, cap: nat, used: nat, ids: seq<uint8>, ghost s: string)
    returns (total: nat)
    requires base + cap <= buf.Length && used == |s| && Holds(buf[..], base, cap, s)
    modifies buf
    ensures total == |s + Listed(IdTexts(ids))| && Holds(buf[..], base, cap, s + Listed(IdTexts(ids)))
    ensures SameOutside(old(buf[..]), buf[..], base, cap)
  {
    total := used;
    assert IdTexts(ids[..0]) == [] && s + "" == s;
    for i := 0 to |ids|
      invariant total == |s + Listed(IdTexts(ids[..i]))|
      invariant Holds(buf[..], base, cap, s + Listed(IdTexts(ids[..i])))
      invariant SameOutside(old(buf[..]), buf[..], base, cap)
    {
      var chunk := (if i == 0 then "" else ",") + Decimal(ids[i]);
      ghost var written := s + Listed(IdTexts(ids[..i]));
      assert IdTexts(ids[..i + 1]) == IdTexts(ids[..i]) + [Decimal(ids[i])];
      ListedGrows(s, IdTexts(ids[..i]), Decimal(ids[i]));
      total := Append(buf, base, cap, total, chunk, written);
    }
    assert ids[..|ids|] == ids;
  }

  lemma ListedGrows(s: string, items: seq<string>, item: string)
    ensures s + Listed(items + [item]) == s + Listed(items) + ((if items == [] then "" else ",") + item)
  {
    assert (items + [item])[..|items|] == items;
  }

  /** Writes a node-quality record, as much of it as fits, and returns its full length. */
  method WriteQualityRecord(
    buf: array<char>, base: nat, cap: nat, r: Telemetry.QualityReport, timestampMs: uint32, ageMs: uint32,
    origin: Option<string>, fmt: Decimals)
    returns (total: nat)
    requires base + cap <= buf.Length && |r.anchorIds| == NAV_TRILAT_ANCHOR_COUNT
    modifies buf
    ensures var record := Record(QualityRecordFields(r, timestampMs, ageMs, origin, fmt));
      total == |record| && Holds(buf[..], base, cap, record)
    ensures SameOutside(old(buf[..]), buf[..], base, cap)
  {
    var chunk := Members(QualityEnvelope(r, timestampMs), '{') + Lead(',', "origin");
    ghost var s := chunk;
    total := Append(buf, base, cap, 0, chunk, "");
    assert "" + chunk == s;
    total := AppendEscaped(buf, base, cap, total, OriginText(origin), s);
    s := s + Quoted(OriginText(origin));
    total := Append(buf, base, cap, total, QualityOpening(r, ageMs, fmt), s);
    s := s + QualityOpening(r, ageMs, fmt);
    total := AppendIds(buf, base, cap, total, AnchorsShown(r), s);
    s := s + Listed(IdTexts(AnchorsShown(r)));
    total := Append(buf, base, cap, total, QualityClosing(r), s);
    QualityText(r, timestampMs, ageMs, origin, fmt);
  }

  // ---- the snapshot record ----------------------------------------------

  datatype NodeInfo = NodeInfo(nodeId: uint8, name: Option<string>, gpsEnabled: bool, mockEnabled: bool)

  function NameText(info: NodeInfo): string {
    match info.name
    case None => ""
    case Some(t) => t
  }

  function GnssUsage(info: NodeInfo, sn: Snapshot): string {
    if sn.gnss.used then "solution" else if info.gpsEnabled then "enabled" else "disabled"
  }

  function NodeFlags(info: NodeInfo): (fields: seq<Field>)
    ensures fields != []
  {
    [Field("gps", Flag(info.gpsEnabled)), Field("mock", Flag(info.mockEnabled))]
  }

  function NodeFields(info: NodeInfo): (fields: seq<Field>)
    ensures fields != []
  {
    [Field("id", Number(info.nodeId))] + ([Field("name", Text(NameText(info)))] + NodeFlags(info))
  }

  function VerdictFields(sn: Snapshot): (fields: seq<Field>)
    ensures fields != []
  {
    [Field("mode", Text(ModeName(ModeCode(sn.mode)))), Field("sol", Text(StatusName(StatusCode(sn.status)))),
     Field("src", Text(SourceName(SourceCode(sn.source)))), Field("reject", Text(RejectName(sn.reject)))]
  }

  function PlaceFields(sn: Snapshot): (fields: seq<Field>)
    ensures fields != []
  {
    [Field("pos", Nested(PositionFields(sn.position))), Field("num_anchors", Number(sn.diag.numAnchors))]
  }

  function AnchorFields(sn: Snapshot, fmt: Decimals): (fields: seq<Field>)
    ensures fields != []
  {
    [Field("anchor_ids", List(IdTexts(sn.diag.selectedIds))),
     Field("residual_rms_m", Bare(fmt(sn.diag.residualRmsM, 6))),
     Field("max_residual_m", Bare(fmt(sn.diag.maxResidualM, 6))),
     Field("geometry_score", Bare(fmt(sn.diag.geometryScore, 3))),
     Field("anchor_triangle_area_m2", Bare(fmt(sn.diag.triangleAreaM2, 3))),
     Field("total_quality", Bare(fmt(sn.diag.totalQuality, 3)))]
  }

  function DisplayFields(source: uint8, status: uint8): (fields: seq<Field>)
    ensures fields != []
  {
    [Field("position_source", Text(PositionSourceName(source))),
     Field("position_valid", Flag(Displayable(source, status))),
     Field("position_degraded", Flag(ShownDegraded(source, status)))]
  }

  function GnssFields(info: NodeInfo, sn: Snapshot): (fields: seq<Field>)
    ensures fields != []
  {
    [Field("present", Flag(sn.gnss.present)), Field("valid", Flag(sn.gnss.valid)), Field("used", Flag(sn.gnss.used)),
     Field("usage", Text(GnssUsage(info, sn))), Field("age_ms", Number(sn.gnss.ageMs)),
     Field("fix_type", Text(FixName(sn.gnss.fixType))), Field("satellites", Number(sn.gnss.satellites)),
     Field("hdop_centi", Number(sn.gnss.hdopCenti)), Field("hacc_mm", Number(sn.gnss.haccMm)),
     Field("vacc_mm", Number(sn.gnss.vaccMm))]
    + PositionFields(sn.gnss.position)
  }

  function SolveFields(sn: Snapshot): (fields: seq<Field>)
    ensures fields != []
  {
    [Field("outcome", Text(OutcomeName(sn.solve.outcome))), Field("age_ms", Number(sn.solve.ageMs)),
     Field("elapsed_ms", Number(sn.solve.elapsedMs)), Field("interval_ms", Number(sn.solve.intervalMs)),
     Field("generation", Number(sn.solve.generation)), Field("last_generation", Number(sn.solve.lastGeneration))]
  }

  function TelemetryAge(timeMs: uint32, p: PeerState): uint32 {
    if timeMs >= p.lastTelemetryMs then timeMs - p.lastTelemetryMs else 0
  }

  function PeerFields(timeMs: uint32, p: PeerState, fmt: Decimals): (fields: seq<Field>)
    ensures fields != []
  {
    [Field("id", Number(p.nodeId)), Field("gnss", Flag(p.gnssValid))] + PositionFields(p.position)
    + DisplayFields(PeerSource(p), PeerStatus(p))
    + [Field("telemetry_age_ms", Number(TelemetryAge(timeMs, p))), Field("range_mm", Number(p.rangeMm)),
       Field("range_valid", Flag(p.rangeValid)), Field("rssi", Signed(p.rssiDbm)), Field("snr", Signed(p.snrDb)),
       Field("quality", Bare(fmt(p.anchorQuality, 3)))]
  }

  function PeerText(timeMs: uint32, p: PeerState, fmt: Decimals): string {
    Record(PeerFields(timeMs, p, fmt))
  }

  /** One object for every peer that is present, in table order. */
  function PeerTexts(timeMs: uint32, peers: seq<PeerState>, fmt: Decimals): seq<string> {
    if peers == [] then []
    else
      var k := |peers| - 1;
      PeerTexts(timeMs, peers[..k], fmt) + if peers[k].present then [PeerText(timeMs, peers[k], fmt)] else []
  }

  function SolutionFields(info: NodeInfo, sn: Snapshot, fmt: Decimals, after: seq<Field>): seq<Field> {
    VerdictFields(sn)
    + (PlaceFields(sn)
       + (AnchorFields(sn, fmt)
          + (DisplayFields(SourceCode(sn.source), StatusCode(sn.status))
             + ([Field("local_gnss", Nested(GnssFields(info, sn)))]
                + ([Field("radio_solve", Nested(SolveFields(sn)))] + after)))))
  }

  /** The members of a snapshot object. */
  function SnapshotFields(info: NodeInfo, sn: Snapshot, peers: seq<PeerState>, fmt: Decimals): (fields: seq<Field>)
    ensures fields != []
  {
    [Field("t", Number(sn.timeMs))]
    + ([Field("node", Nested(NodeFields(info)))]
       + SolutionFields(info, sn, fmt, [Field("peers", List(PeerTexts(sn.timeMs, peers, fmt)))]))
  }

  function SnapshotText(info: NodeInfo, sn: Snapshot, peers: seq<PeerState>, fmt: Decimals): string {
    Record(SnapshotFields(info, sn, peers, fmt))
  }

  function SnapshotOpening(info: NodeInfo, sn: Snapshot): string {
    Members([Field("t", Number(sn.timeMs))], '{') + Lead(',', "node") + Members([Field("id", Number(info.nodeId))], '{')
    + Lead(',', "name")
  }

  /** What a snapshot writes between its node object and its peers. */
  function SolutionText(info: NodeInfo, sn: Snapshot, fmt: Decimals): string {
    Members(VerdictFields(sn), ',') + Members(PlaceFields(sn), ',') + Members(AnchorFields(sn, fmt), ',')
    + Members(DisplayFields(SourceCode(sn.source), StatusCode(sn.status)), ',')
    + Members([Field("local_gnss", Nested(GnssFields(info, sn)))], ',')
    + Members([Field("radio_solve", Nested(SolveFields(sn)))], ',')
  }

  /** A nested node object, written around its escaped name. */
  lemma NodeText(id: Field, name: string, flags: seq<Field>)
    requires flags != []
    ensures Record([id] + ([Field("name", Text(name))] + flags))
         == Members([id], '{') + Lead(',', "name") + Quoted(name) + (Members(flags, ',') + "}")
  {
    var named := Field("name", Text(name));
    var whole := Record([id] + ([named] + flags));
    TailSplits([id], [named] + flags, '{');
    MemberWritten(whole, Members([id], '{'), named, flags, ',', Lead(',', "name"));
    ClosedRun(flags);
  }

  lemma SolutionWritten(
    whole: string, written: string, info: NodeInfo, sn: Snapshot, fmt: Decimals, after: seq<Field>)
    requires whole == written + Tail(SolutionFields(info, sn, fmt, after), ',')
    ensures whole == written + SolutionText(info, sn, fmt) + Tail(after, ',')
  {
    var shown := DisplayFields(SourceCode(sn.source), StatusCode(sn.status));
    var gnss := [Field("local_gnss", Nested(GnssFields(info, sn)))];
    var solve := [Field("radio_solve", Nested(SolveFields(sn)))];
    SixRuns(whole, written, VerdictFields(sn), PlaceFields(sn), AnchorFields(sn, fmt), shown, gnss, solve, after);
  }

  lemma SixRuns(
    whole: string, written: string, a: seq<Field>, b: seq<Field>, c: seq<Field>, d: seq<Field>, e: seq<Field>,
    f: seq<Field>, after: seq<Field>)
    requires a != [] && b != [] && c != [] && d != [] && e != [] && f != []
    requires whole == written + Tail(a + (b + (c + (d + (e + (f + after))))), ',')
    ensures whole == written + (Members(a, ',') + Members(b, ',') + Members(c, ',') + Members(d, ',') + Members(e, ',')
                                + Members(f, ',')) + Tail(after, ',')
  {
    TailSplits(a, b + (c + (d + (e + (f + after)))), ',');
    TailSplits(b, c + (d + (e + (f + after))), ',');
    TailSplits(c, d + (e + (f + after)), ',');
    TailSplits(d, e + (f + after), ',');
    TailSplits(e, f + after, ',');
    TailSplits(f, after, ',');
    SixGrouped(written, Members(a, ','), Members(b, ','), Members(c, ','), Members(d, ','), Members(e, ','),
               Members(f, ','), Tail(after, ','));
  }

  lemma SixGrouped(
    w: string, a: string, b: string, c: string, d: string, e: string, f: string, rest: string)
    ensures w + (a + (b + (c + (d + (e + (f + rest)))))) == w + (a + b + c + d + e + f) + rest
  {
    assert d + (e + (f + rest)) == (d + e + f) + rest;
    assert a + (b + (c + ((d + e + f) + rest))) == a + b + c + (d + e + f) + rest;
    assert a + b + c + (d + e + f) == a + b + c + d + e + f;
  }

  lemma SnapshotGrouping(
    opening: string, lead: string, id: string, name: string, quoted: string, flags: string, rest: string)
    ensures opening + lead + (id + name + quoted + (flags + "}")) + rest
         == (opening + lead + id + name) + quoted + (flags + "}") + rest
  {
  }

  lemma SnapshotShape(time: Field, id: Field, name: string, flags: seq<Field>, rest: seq<Field>)
    requires flags != []
    ensures Tail([time] + ([Field("node", Nested([id] + ([Field("name", Text(name))] + flags)))] + rest), '{')
         == (Members([time], '{') + Lead(',', "node") + Members([id], '{') + Lead(',', "name")) + Quoted(name)
            + (Members(flags, ',') + "}") + Tail(rest, ',')
  {
    var node := Field("node", Nested([id] + ([Field("name", Text(name))] + flags)));
    var whole := Tail([time] + ([node] + rest), '{');
    TailSplits([time], [node] + rest, '{');
    MemberWritten(whole, Members([time], '{'), node, rest, ',', Lead(',', "node"));
    NodeText(id, name, flags);
    SnapshotGrouping(Members([time], '{'), Lead(',', "node"), Members([id], '{'), Lead(',', "name"), Quoted(name),
                     Members(flags, ','), Tail(rest, ','));
  }

  lemma SnapshotWritten(info: NodeInfo, sn: Snapshot, peers: seq<PeerState>, fmt: Decimals)
    ensures SnapshotText(info, sn, peers, fmt)
         == SnapshotOpening(info, sn) + Quoted(NameText(info)) + (Members(NodeFlags(info), ',') + "}")
            + SolutionText(info, sn, fmt) + (Lead(',', "peers") + "[") + Listed(PeerTexts(sn.timeMs, peers, fmt)) + "]}"
  {
    var items := PeerTexts(sn.timeMs, peers, fmt);
    var solution := SolutionFields(info, sn, fmt, [Field("peers", List(items))]);
    SnapshotShape(Field("t", Number(sn.timeMs)), Field("id", Number(info.nodeId)), NameText(info), NodeFlags(info),
                  solution);
    SnapshotEnding(SnapshotText(info, sn, peers, fmt),
                   SnapshotOpening(info, sn) + Quoted(NameText(info)) + (Members(NodeFlags(info), ',') + "}"),
                   info, sn, fmt, items);
  }

  lemma SnapshotEnding(
    whole: string, written: string, info: NodeInfo, sn: Snapshot, fmt: Decimals, items: seq<string>)
    requires whole == written + Tail(SolutionFields(info, sn, fmt, [Field("peers", List(items))]), ',')
    ensures whole == written + SolutionText(info, sn, fmt) + (Lead(',', "peers") + "[") + Listed(items) + "]}"
  {
    SolutionWritten(whole, written, info, sn, fmt, [Field("peers", List(items))]);
    LastList(whole, written + SolutionText(info, sn, fmt), "peers", items);
  }

  lemma LastList(whole: string, written: string, key: string, items: seq<string>)
    requires whole == written + Tail([Field(key, List(items))], ',')
    ensures whole == written + (Lead(',', key) + "[") + Listed(items) + "]}"
  {
    var last := Field(key, List(items));
    assert [last] + [] == [last];
    MemberWritten(whole, written, last, [], ',', Lead(',', key));
    ListCloses(written, Lead(',', key), Listed(items));
  }

  lemma ListCloses(written: string, lead: string, listed: string)
    ensures written + lead + ("[" + listed + "]") + "}" == written + (lead + "[") + listed + "]}"
  {
    assert "]" + "}" == "]}";
    assert ("[" + listed + "]") + "}" == "[" + listed + "]}";
    assert written + lead + "[" == written + (lead + "[");
  }

  /** Appends the peers that are present, a comma before each but the first. */
  method AppendPeers(
    buf: array<char>, base: nat, cap: nat, used: nat, timeMs: uint32, peers: seq<PeerState>, fmt: Decimals,
    ghost s: string)
    returns (total: nat)
    requires base + cap <= buf.Length && used == |s| && Holds(buf[..], base, cap, s)
    modifies buf
    ensures var listed := Listed(PeerTexts(timeMs, peers, fmt));
      total == |s + listed| && Holds(buf[..], base, cap, s + listed)
    ensures SameOutside(old(buf[..]), buf[..], base, cap)
  {
    total := used;
    var first := true;
    assert PeerTexts(timeMs, peers[..0], fmt) == [] && s + "" == s;
    for i := 0 to |peers|
      invariant first <==> PeerTexts(timeMs, peers[..i], fmt) == []
      invariant total == |s + Listed(PeerTexts(timeMs, peers[..i], fmt))|
      invariant Holds(buf[..], base, cap, s + Listed(PeerTexts(timeMs, peers[..i], fmt)))
      invariant SameOutside(old(buf[..]), buf[..], base, cap)
    {
      PeersGrow(timeMs, peers, i, fmt);
      if !peers[i].present {
        continue;
      }
      total := AppendItem(buf, base, cap, total, first, PeerText(timeMs, peers[i], fmt), s,
                          PeerTexts(timeMs, peers[..i], fmt));
      first := false;
    }
    assert peers[..|peers|] == peers;
  }

  lemma PeersGrow(timeMs: uint32, peers: seq<PeerState>, i: nat, fmt: Decimals)
    requires i < |peers|
    ensures PeerTexts(timeMs, peers[..i + 1], fmt)
         == if peers[i].present then PeerTexts(timeMs, peers[..i], fmt) + [PeerText(timeMs, peers[i], fmt)]
            else PeerTexts(timeMs, peers[..i], fmt)
  {
    assert peers[..i + 1][..i] == peers[..i];
  }

  /** Appends one item of a list, after a comma unless it is the first. */
  method AppendItem(
    buf: array<char>, base: nat, cap: nat, used: nat, first: bool, item: string, ghost s: string,
    ghost items: seq<string>)
    returns (total: nat)
    requires base + cap <= buf.Length && used == |s + Listed(items)| && Holds(buf[..], base, cap, s + Listed(items))
    requires first <==> items == []
    modifies buf
    ensures var listed := Listed(items + [item]);
      total == |s + listed| && Holds(buf[..], base, cap, s + listed)
    ensures SameOutside(old(buf[..]), buf[..], base, cap)
  {
    var comma := if first then "" else ",";
    ListedGrows(s, items, item);
    assert s + Listed(items) + (comma + item) == s + Listed(items) + comma + item;
    total := Append(buf, base, cap, used, comma, s + Listed(items));
    total := Append(buf, base, cap, total, item, s + Listed(items) + comma);
  }

  /** Appends what a snapshot says of its solution, one run of members after another. */
  method AppendSolution(
    buf: array<char>, base: nat, cap: nat, used: nat, verdict: seq<Field>, place: seq<Field>, anchors: seq<Field>,
    shown: seq<Field>, gnss: seq<Field>, solve: seq<Field>, ghost s: string)
    returns (total: nat)
    requires base + cap <= buf.Length && used == |s| && Holds(buf[..], base, cap, s)
    modifies buf
    ensures var text := Members(verdict, ',') + Members(place, ',') + Members(anchors, ',') + Members(shown, ',')
                        + Members(gnss, ',') + Members(solve, ',');
      total == |s + text| && Holds(buf[..], base, cap, s + text)
    ensures SameOutside(old(buf[..]), buf[..], base, cap)
  {
    assert s + "" == s;
    total := AppendRun(buf, base, cap, used, verdict, s, "");
    ghost var text := Members(verdict, ',');
    assert "" + text == text;
    total := AppendRun(buf, base, cap, total, place, s, text);
    text := text + Members(place, ',');
    total := AppendRun(buf, base, cap, total, anchors, s, text);
    text := text + Members(anchors, ',');
    total := AppendRun(buf, base, cap, total, shown, s, text);
    text := text + Members(shown, ',');
    total := AppendRun(buf, base, cap, total, gnss, s, text);
    text := text + Members(gnss, ',');
    total := AppendRun(buf, base, cap, total, solve, s, text);
  }

  /** Appends members after `s` and `text`. */
  method AppendRun(
    buf: array<char>, base: nat, cap: nat, used: nat, run: seq<Field>, ghost s: string, ghost text: string)
    returns (total: nat)
    requires base + cap <= buf.Length && used == |s + text| && Holds(buf[..], base, cap, s + text)
    modifies buf
    ensures var more := text + Members(run, ',');
      total == |s + more| && Holds(buf[..], base, cap, s + more)
    ensures SameOutside(old(buf[..]), buf[..], base, cap)
  {
    total := Append(buf, base, cap, used, Members(run, ','), s + text);
    assert s + text + Members(run, ',') == s + (text + Members(run, ','));
  }

  /** Writes a snapshot, as much of it as fits, and returns its full length. */
  method WriteSnapshot(
    buf: array<char>, base: nat, cap: nat, info: NodeInfo, sn: Snapshot, peers: seq<PeerState>, fmt: Decimals)
    returns (total: nat)
    requires base + cap <= buf.Length
    modifies buf
    ensures var text := SnapshotText(info, sn, peers, fmt);
      total == |text| && Holds(buf[..], base, cap, text)
    ensures SameOutside(old(buf[..]), buf[..], base, cap)
  {
    ghost var s := SnapshotOpening(info, sn);
    total := Append(buf, base, cap, 0, SnapshotOpening(info, sn), "");
    assert "" + SnapshotOpening(info, sn) == s;
    total := AppendEscaped(buf, base, cap, total, NameText(info), s);
    s := s + Quoted(NameText(info));
    total := Append(buf, base, cap, total, Members(NodeFlags(info), ',') + "}", s);
    s := s + (Members(NodeFlags(info), ',') + "}");
    total := AppendSolution(
      buf, base, cap, total, VerdictFields(sn), PlaceFields(sn), AnchorFields(sn, fmt),
      DisplayFields(SourceCode(sn.source), StatusCode(sn.status)), [Field("local_gnss", Nested(GnssFields(info, sn)))],
      [Field("radio_solve", Nested(SolveFields(sn)))], s);
    s := s + SolutionText(info, sn, fmt);
    total := Append(buf, base, cap, total, Lead(',', "peers") + "[", s);
    s := s + (Lead(',', "peers") + "[");
    total := AppendPeers(buf, base, cap, total, sn.timeMs, peers, fmt, s);
    s := s + Listed(PeerTexts(sn.timeMs, peers, fmt));
    total := Append(buf, base, cap, total, "]}", s);
    SnapshotWritten(info, sn, peers, fmt);
  }

  /** Appends a whole snapshot by handing its writer what the window has left. */
  method AppendSnapshot(
    buf: array<char>, base: nat, cap: nat, used: nat, info: NodeInfo, sn: Snapshot, peers: seq<PeerState>,
    fmt: Decimals, ghost s: string)
    returns (total: nat)
    requires base + cap <= buf.Length && used == |s| && (s == "" || Holds(buf[..], base, cap, s))
    modifies buf
    ensures var text := SnapshotText(info, sn, peers, fmt);
      total == |s + text| && Holds(buf[..], base, cap, s + text)
    ensures SameOutside(old(buf[..]), buf[..], base, cap)
  {
    var off := Min(used, cap);
    var start, room := base + off, cap - off;
    ghost var before := buf[..];
    total := WriteSnapshot(buf, start, room, info, sn, peers, fmt);
    RestAppended(before, buf[..], base, cap, s, SnapshotText(info, sn, peers, fmt), start, room);
    total := used + total;
  }

  lemma RestAppended(
    before: seq<char>, after: seq<char>, base: nat, cap: nat, s: string, text: string, start: nat, room: nat)
    requires base + cap <= |before| && (s == "" || Holds(before, base, cap, s))
    requires start == base + Min(|s|, cap) && room == cap - Min(|s|, cap)
    requires SameOutside(before, after, start, room) && Holds(after, start, room, text)
    ensures SameOutside(before, after, base, cap) && Holds(after, base, cap, s + text)
    ensures |s + text| == |s| + |text|
  {
    assert Formatted(before, after, base, cap, s, text);
    HoldsAppended(before, after, base, cap, s, text);
  }

  function SnapshotEnvelope(sn: Snapshot): (fields: seq<Field>)
    ensures fields != []
  {
    [Field("type", Text("snapshot")), Field("ts", Number(sn.timeMs))]
  }

  function SnapshotRecordFields(
    info: NodeInfo, sn: Snapshot, peers: seq<PeerState>, fmt: Decimals): (fields: seq<Field>)
    ensures fields != []
  {
    SnapshotEnvelope(sn) + [Field("data", Nested(SnapshotFields(info, sn, peers, fmt)))]
  }

  lemma RecordAroundObject(head: seq<Field>, inner: string)
    requires head != []
    ensures Tail(head + [Field("data", Bare(inner))], '{') == (Members(head, '{') + Lead(',', "data")) + inner + "}"
  {
    var data := [Field("data", Bare(inner))];
    TailSplits(head, data, '{');
    LastObject(Members(head, '{') + Tail(data, ','), Members(head, '{'), inner);
  }

  /** Writes a snapshot inside its record envelope, as much of it as fits, and returns the full length. */
  method WriteSnapshotRecord(
    buf: array<char>, base: nat, cap: nat, info: NodeInfo, sn: Snapshot, peers: seq<PeerState>, fmt: Decimals)
    returns (total: nat)
    requires base + cap <= buf.Length
    modifies buf
    ensures var record := Record(SnapshotRecordFields(info, sn, peers, fmt));
      total == |record| && Holds(buf[..], base, cap, record)
    ensures SameOutside(old(buf[..]), buf[..], base, cap)
  {
    var chunk := Members(SnapshotEnvelope(sn), '{') + Lead(',', "data");
    ghost var s := chunk;
    total := Append(buf, base, cap, 0, chunk, "");
    assert "" + chunk == s;
    total := AppendSnapshot(buf, base, cap, total, info, sn, peers, fmt, s);
    s := s + SnapshotText(info, sn, peers, fmt);
    total := Append(buf, base, cap, total, "}", s);
    RecordAroundObject(SnapshotEnvelope(sn), SnapshotText(info, sn, peers, fmt));
  }
}
