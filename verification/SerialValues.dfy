/** The records say what they report: numbers read back from their digits, and every member stands in the text under its
    key. */
module SerialValues {
  import opened Words
  import opened NavTypes
  import opened NavState
  import Telemetry
  import opened SerialJson
  import opened SerialRecords

  // ---- numbers ----------------------------------------------------------

  function DigitValue(c: char): Option<nat> {
    if '0' <= c <= '9' then Some(c as int - '0' as int) else None
  }

  /** The number a string of digits stands for. */
  function ReadDigits(s: string): Option<nat> {
    if s == "" then None
    else
      var last := DigitValue(s[|s| - 1]);
      if last.None? then None
      else if |s| == 1 then last
      else
        var high := ReadDigits(s[..|s| - 1]);
        if high.None? then None else Some(10 * high.value + last.value)
  }

  function WithSign(negative: bool, magnitude: Option<nat>): Option<int> {
    match magnitude
    case None => None
    case Some(n) => Some(if negative then 0 - n else n as int)
  }

  function ReadNumber(s: string): Option<int> {
    if s != "" && s[0] == '-' then WithSign(true, ReadDigits(s[1..])) else WithSign(false, ReadDigits(s))
  }

  lemma DigitReads(d: nat)
    requires d < 10
    ensures DigitValue("0123456789"[d]) == Some(d)
  {
  }

  /** The digits written for a number read back as that number, and do not begin with a needless zero. */
  lemma {:induction false} DecimalReads(n: nat)
    ensures ReadDigits(Decimal(n)) == Some(n) && Decimal(n) != "" && (Decimal(n)[0] == '0' ==> n == 0)
    ensures DigitValue(Decimal(n)[0]).Some?
  {
    if n < 10 {
      DigitReads(n);
    } else {
      DecimalReads(n / 10);
      DigitReads(n % 10);
      var high, low := Decimal(n / 10), "0123456789"[n % 10];
      assert Decimal(n) == high + [low];
      assert (high + [low])[..|high + [low]| - 1] == high;
    }
  }

  lemma SignedReads(x: int)
    ensures ReadNumber(SignedDecimal(x)) == Some(x)
  {
    if x < 0 {
      DecimalReads(-x);
      MinusReads(Decimal(-x), -x, x);
    } else {
      DecimalReads(x);
      PlainReads(Decimal(x), x);
    }
  }

  lemma MinusReads(s: string, n: nat, x: int)
    requires ReadDigits(s) == Some(n) && x + n == 0
    ensures ReadNumber("-" + s) == Some(x)
  {
    assert ("-" + s)[1..] == s;
  }

  lemma PlainReads(s: string, n: nat)
    requires s != "" && DigitValue(s[0]).Some? && ReadDigits(s) == Some(n)
    ensures ReadNumber(s) == Some(n)
  {
  }

  // ---- strings ----------------------------------------------------------

  function HexValue(c: char): Option<nat> {
    if '0' <= c <= '9' then Some(c as int - '0' as int)
    else if 'a' <= c <= 'f' then Some(c as int - 'a' as int + 10)
    else None
  }

  /** The character a `uXXXX` escape names, for codes below 256. */
  function EscapedCode(s: string): Option<nat> {
    if |s| < 5 || s[..3] != "u00" || HexValue(s[3]).None? || HexValue(s[4]).None? then None
    else Some(16 * HexValue(s[3]).value + HexValue(s[4]).value)
  }

  /** What a JSON reader makes of the inside of a string. */
  function JsonText(s: string): Option<string> {
    if s == "" then Some("")
    else if s[0] == QUOTE || IsControl(s[0]) then None
    else if s[0] != BACKSLASH then AfterChar(s[0], JsonText(s[1..]))
    else if |s| >= 2 && (s[1] == QUOTE || s[1] == BACKSLASH) then AfterChar(s[1], JsonText(s[2..]))
    else if EscapedCode(s[1..]).Some? then AfterChar(EscapedCode(s[1..]).value as char, JsonText(s[6..]))
    else None
  }

  function AfterChar(c: char, rest: Option<string>): Option<string> {
    match rest
    case None => None
    case Some(t) => Some([c] + t)
  }

  lemma HexReads(d: nat)
    requires d < 16
    ensures HexValue(HexDigit(d)) == Some(d)
  {
  }

  lemma CharReads(c: char, rest: string)
    ensures JsonText(EscapedChar(c) + rest) == AfterChar(c, JsonText(rest))
  {
    var s := EscapedChar(c) + rest;
    if c == QUOTE || c == BACKSLASH {
      assert s[2..] == rest;
    } else if IsControl(c) {
      ControlReads(c, rest);
    } else {
      assert s[1..] == rest;
    }
  }

  lemma ControlReads(c: char, rest: string)
    requires IsControl(c)
    ensures JsonText(ControlEscape(c) + rest) == AfterChar(c, JsonText(rest))
  {
    var s := ControlEscape(c) + rest;
    HexReads(c as int / 16);
    HexReads(c as int % 16);
    assert s[1..] == ControlEscape(c)[1..] + rest;
    assert s[1..][..3] == "u00" && s[1..][3] == HexDigit(c as int / 16) && s[1..][4] == HexDigit(c as int % 16);
    assert EscapedCode(s[1..]) == Some(c as int);
    assert s[6..] == rest;
  }

  /** A JSON reader makes the very text of its escape, whatever it holds. */
  lemma {:induction false} EscapedReads(t: string)
    ensures JsonText(Escaped(t)) == Some(t)
  {
    if t != "" {
      EscapedReads(t[1..]);
      CharReads(t[0], Escaped(t[1..]));
      assert t == [t[0]] + t[1..];
    }
  }

  // ---- members in the text ----------------------------------------------

  predicate Occurs(text: string, w: string, at: nat) {
    at + |w| <= |text| && text[at..at + |w|] == w
  }

  ghost predicate Contains(text: string, w: string) {
    exists at: nat :: Occurs(text, w, at)
  }

  lemma ContainsPart(a: string, w: string, b: string)
    ensures Contains(a + w + b, w)
  {
    assert Occurs(a + w + b, w, |a|);
  }

  lemma ContainsThrough(text: string, middle: string, w: string)
    requires Contains(text, middle) && Contains(middle, w)
    ensures Contains(text, w)
  {
    var i: nat :| Occurs(text, middle, i);
    var j: nat :| Occurs(middle, w, j);
    forall k | 0 <= k < |w|
      ensures text[i + j + k] == w[k]
    {
      assert text[i..i + |middle|][j + k] == middle[j + k] && middle[j..j + |w|][k] == w[k];
    }
    assert text[i + j..i + j + |w|] == w;
    assert Occurs(text, w, i + j);
  }

  /** The text has a member of this key and value, whole: what follows the value ends it. */
  ghost predicate Shows(text: string, key: string, v: Value) {
    || Contains(text, [QUOTE] + key + [QUOTE, ':'] + Shown(v) + ",")
    || Contains(text, [QUOTE] + key + [QUOTE, ':'] + Shown(v) + "}")
  }

  /** The text has a member of this key whose digits read as this number. */
  ghost predicate ShowsNumber(text: string, key: string, n: int) {
    exists digits: string :: ReadNumber(digits) == Some(n) && Shows(text, key, Bare(digits))
  }

  lemma NumberShown(text: string, key: string, n: int)
    requires Shows(text, key, Signed(n))
    ensures ShowsNumber(text, key, n)
  {
    SignedReads(n);
    assert ReadNumber(SignedDecimal(n)) == Some(n) && Shows(text, key, Bare(SignedDecimal(n)));
  }

  lemma TailBegins(fields: seq<Field>, separator: char)
    ensures Tail(fields, separator) != ""
    ensures Tail(fields, separator)[0] == if fields == [] then '}' else separator
  {
  }

  lemma {:induction false} TailShows(fields: seq<Field>, separator: char, i: nat)
    requires i < |fields|
    ensures Shows(Tail(fields, separator), fields[i].key, fields[i].value)
  {
    var rest := Tail(fields[1..], ',');
    var w := Member(fields[0]);
    assert Tail(fields, separator) == [separator] + w + rest;
    if i == 0 {
      TailBegins(fields[1..], ',');
      var ending := [rest[0]];
      assert [separator] + w + rest == [separator] + (w + ending) + rest[1..];
      ContainsPart([separator], w + ending, rest[1..]);
    } else {
      TailShows(fields[1..], ',', i - 1);
      ContainsPart([separator] + w, rest, "");
      assert [separator] + w + rest + "" == [separator] + w + rest;
      ShowsThrough(Tail(fields, separator), rest, fields[i].key, fields[i].value);
    }
  }

  lemma ShowsThrough(text: string, middle: string, key: string, v: Value)
    requires Contains(text, middle) && Shows(middle, key, v)
    ensures Shows(text, key, v)
  {
    var w := [QUOTE] + key + [QUOTE, ':'] + Shown(v);
    if Contains(middle, w + ",") {
      ContainsThrough(text, middle, w + ",");
    } else {
      ContainsThrough(text, middle, w + "}");
    }
  }

  /** Every member of a record stands in its text. */
  lemma RecordShows(fields: seq<Field>, key: string, v: Value)
    requires Field(key, v) in fields
    ensures Shows(Record(fields), key, v)
  {
    var i :| 0 <= i < |fields| && fields[i] == Field(key, v);
    TailShows(fields, '{', i);
  }

  lemma {:induction false} ListedContains(items: seq<string>, i: nat)
    requires i < |items|
    ensures Contains(Listed(items), items[i])
  {
    var k := |items| - 1;
    var before, comma := Listed(items[..k]), if |items| == 1 then "" else ",";
    assert Listed(items) == before + comma + items[k];
    if i == k {
      ContainsPart(before + comma, items[k], "");
      assert before + comma + items[k] + "" == before + comma + items[k];
    } else {
      ListedContains(items[..k], i);
      ContainsPart("", before, comma + items[k]);
      assert "" + before + (comma + items[k]) == before + comma + items[k];
      ContainsThrough(Listed(items), before, items[i]);
    }
  }

  // ---- the snapshot -----------------------------------------------------

  lemma SignedMember(fields: seq<Field>, key: string, n: int)
    requires Field(key, Signed(n)) in fields
    ensures ShowsNumber(Record(fields), key, n)
  {
    RecordShows(fields, key, Signed(n));
    NumberShown(Record(fields), key, n);
  }

  lemma CountMember(fields: seq<Field>, key: string, n: nat)
    requires Field(key, Number(n)) in fields
    ensures ShowsNumber(Record(fields), key, n)
  {
    assert Number(n) == Signed(n);
    SignedMember(fields, key, n);
  }

  ghost predicate ShowsPosition(text: string, p: Position) {
    ShowsNumber(text, "lat_e7", p.latE7) && ShowsNumber(text, "lon_e7", p.lonE7) && ShowsNumber(text, "alt_mm", p.altMm)
  }

  lemma PositionMembers(fields: seq<Field>, p: Position)
    requires fields != [] && forall f <- PositionFields(p) :: f in fields
    ensures ShowsPosition(Record(fields), p)
  {
    var run := PositionFields(p);
    assert run[0] in fields && run[1] in fields && run[2] in fields;
    SignedMember(fields, "lat_e7", p.latE7);
    SignedMember(fields, "lon_e7", p.lonE7);
    SignedMember(fields, "alt_mm", p.altMm);
  }

  /** An object nested under a key. */
  ghost predicate ShowsObject(text: string, key: string, inner: string) {
    Shows(text, key, Bare(inner))
  }

  function ModeWord(mode: NavMode): string {
    match mode
    case Boot => "BOOT"
    case GnssOk => "GNSS_OK"
    case RadioNavOk => "RADIO_NAV_OK"
    case RadioNavDegraded => "RADIO_NAV_DEGRADED"
    case NoNavSolution => "NO_NAV_SOLUTION"
  }

  function StatusWord(status: SolutionStatus): string {
    match status
    case NoSolution => "NONE"
    case GnssDirect => "GNSS_DIRECT"
    case Radio3D => "RADIO_3D"
    case Degraded => "DEGRADED"
    case Rejected => "REJECTED"
  }

  function SourceWord(source: SolutionSource): string {
    match source
    case SourceNone => "NONE"
    case SourceLocalGnss => "LOCAL_GNSS"
    case SourceRadio3D => "RADIO_3D"
  }

  ghost predicate ShowsVerdict(text: string, sn: Snapshot) {
    && Shows(text, "mode", Text(ModeWord(sn.mode))) && Shows(text, "sol", Text(StatusWord(sn.status)))
    && Shows(text, "src", Text(SourceWord(sn.source))) && Shows(text, "reject", Text(RejectName(sn.reject)))
  }

  ghost predicate ShowsPlace(text: string, sn: Snapshot) {
    && ShowsNumber(text, "num_anchors", sn.diag.numAnchors)
    && exists inner: string :: ShowsObject(text, "pos", inner) && ShowsPosition(inner, sn.position)
  }

  ghost predicate ShowsScores(text: string, d: Diagnostics, fmt: Decimals) {
    && Shows(text, "anchor_ids", List(IdTexts(d.selectedIds)))
    && Shows(text, "residual_rms_m", Bare(fmt(d.residualRmsM, 6))) && Shows(text, "max_residual_m", Bare(fmt(d.maxResidualM, 6)))
    && Shows(text, "geometry_score", Bare(fmt(d.geometryScore, 3)))
    && Shows(text, "anchor_triangle_area_m2", Bare(fmt(d.triangleAreaM2, 3)))
    && Shows(text, "total_quality", Bare(fmt(d.totalQuality, 3)))
  }

  /** How the position may be displayed: its source in the display's own words, whether it is valid, and whether it is only a
      degraded one. */
  ghost predicate ShowsDisplay(text: string, sn: Snapshot) {
    && Shows(text, "position_source", Text(if sn.source.SourceLocalGnss? then "GNSS" else SourceWord(sn.source)))
    && Shows(text, "position_valid",
             Flag((sn.source.SourceLocalGnss? && sn.status.GnssDirect?)
                  || (sn.source.SourceRadio3D? && (sn.status.Radio3D? || sn.status.Degraded?))))
    && Shows(text, "position_degraded", Flag(sn.source.SourceRadio3D? && sn.status.Degraded?))
  }

  lemma ScoresShown(fields: seq<Field>, sn: Snapshot, fmt: Decimals)
    requires fields != [] && forall f <- AnchorFields(sn, fmt) :: f in fields
    ensures ShowsScores(Record(fields), sn.diag, fmt)
  {
    var run, d := AnchorFields(sn, fmt), sn.diag;
    assert run[0] in fields && run[1] in fields && run[2] in fields && run[3] in fields && run[4] in fields;
    assert run[5] in fields;
    RecordShows(fields, "anchor_ids", List(IdTexts(d.selectedIds)));
    RecordShows(fields, "residual_rms_m", Bare(fmt(d.residualRmsM, 6)));
    RecordShows(fields, "max_residual_m", Bare(fmt(d.maxResidualM, 6)));
    RecordShows(fields, "geometry_score", Bare(fmt(d.geometryScore, 3)));
    RecordShows(fields, "anchor_triangle_area_m2", Bare(fmt(d.triangleAreaM2, 3)));
    RecordShows(fields, "total_quality", Bare(fmt(d.totalQuality, 3)));
  }

  lemma DisplayShown(fields: seq<Field>, sn: Snapshot)
    requires fields != [] && forall f <- DisplayFields(SourceCode(sn.source), StatusCode(sn.status)) :: f in fields
    ensures ShowsDisplay(Record(fields), sn)
  {
    var source, status := SourceCode(sn.source), StatusCode(sn.status);
    var run := DisplayFields(source, status);
    assert run[0] in fields && run[1] in fields && run[2] in fields;
    RecordShows(fields, "position_source", Text(PositionSourceName(source)));
    RecordShows(fields, "position_valid", Flag(Displayable(source, status)));
    RecordShows(fields, "position_degraded", Flag(ShownDegraded(source, status)));
  }

  ghost predicate ShowsReceiver(text: string, g: GnssEvidence, usage: string) {
    && Shows(text, "present", Flag(g.present)) && Shows(text, "valid", Flag(g.valid)) && Shows(text, "used", Flag(g.used))
    && Shows(text, "usage", Text(usage)) && ShowsNumber(text, "age_ms", g.ageMs)
    && ShowsNumber(text, "satellites", g.satellites) && ShowsNumber(text, "hdop_centi", g.hdopCenti)
    && ShowsNumber(text, "hacc_mm", g.haccMm) && ShowsNumber(text, "vacc_mm", g.vaccMm) && ShowsPosition(text, g.position)
  }

  ghost predicate ShowsCadence(text: string, s: SolveInfo) {
    && Shows(text, "outcome", Text(OutcomeName(s.outcome))) && ShowsNumber(text, "age_ms", s.ageMs)
    && ShowsNumber(text, "elapsed_ms", s.elapsedMs) && ShowsNumber(text, "interval_ms", s.intervalMs)
    && ShowsNumber(text, "generation", s.generation) && ShowsNumber(text, "last_generation", s.lastGeneration)
  }

  ghost predicate ShowsPeer(text: string, timeMs: uint32, p: PeerState, fmt: Decimals) {
    && ShowsNumber(text, "id", p.nodeId) && Shows(text, "gnss", Flag(p.gnssValid)) && ShowsPosition(text, p.position)
    && Shows(text, "position_valid", Flag(Displayable(PeerSource(p), PeerStatus(p))))
    && ShowsNumber(text, "telemetry_age_ms", if timeMs < p.lastTelemetryMs then 0 else timeMs - p.lastTelemetryMs)
    && ShowsNumber(text, "range_mm", p.rangeMm) && Shows(text, "range_valid", Flag(p.rangeValid))
    && ShowsNumber(text, "rssi", p.rssiDbm) && ShowsNumber(text, "snr", p.snrDb)
    && Shows(text, "quality", Bare(fmt(p.anchorQuality, 3)))
  }

  lemma WordsAgree(sn: Snapshot)
    ensures ModeName(ModeCode(sn.mode)) == ModeWord(sn.mode) && StatusName(StatusCode(sn.status)) == StatusWord(sn.status)
    ensures SourceName(SourceCode(sn.source)) == SourceWord(sn.source)
  {
  }

  lemma VerdictShown(fields: seq<Field>, sn: Snapshot)
    requires fields != [] && forall f <- VerdictFields(sn) :: f in fields
    ensures ShowsVerdict(Record(fields), sn)
  {
    var run := VerdictFields(sn);
    WordsAgree(sn);
    assert run[0] in fields && run[1] in fields && run[2] in fields && run[3] in fields;
    RecordShows(fields, "mode", Text(ModeWord(sn.mode)));
    RecordShows(fields, "sol", Text(StatusWord(sn.status)));
    RecordShows(fields, "src", Text(SourceWord(sn.source)));
    RecordShows(fields, "reject", Text(RejectName(sn.reject)));
  }

  lemma PlaceShown(fields: seq<Field>, sn: Snapshot)
    requires fields != [] && forall f <- PlaceFields(sn) :: f in fields
    ensures ShowsPlace(Record(fields), sn)
  {
    var run, p := PlaceFields(sn), PositionFields(sn.position);
    assert run[0] in fields && run[1] in fields;
    CountMember(fields, "num_anchors", sn.diag.numAnchors);
    RecordShows(fields, "pos", Nested(p));
    PositionMembers(p, sn.position);
    assert ShowsObject(Record(fields), "pos", Record(p));
  }

  lemma ReceiverShown(info: NodeInfo, sn: Snapshot)
    ensures ShowsReceiver(Record(GnssFields(info, sn)), sn.gnss, GnssUsage(info, sn))
  {
    var fields := GnssFields(info, sn);
    RunsInside(fields[..10], PositionFields(sn.gnss.position), [], []);
    assert fields == fields[..10] + (PositionFields(sn.gnss.position) + ([] + []));
    PositionMembers(fields, sn.gnss.position);
    ReceiverNumbers(info, sn, fields);
    assert fields[0] in fields && fields[1] in fields && fields[2] in fields && fields[3] in fields;
    RecordShows(fields, "present", Flag(sn.gnss.present));
    RecordShows(fields, "valid", Flag(sn.gnss.valid));
    RecordShows(fields, "used", Flag(sn.gnss.used));
    RecordShows(fields, "usage", Text(GnssUsage(info, sn)));
  }

  lemma ReceiverNumbers(info: NodeInfo, sn: Snapshot, fields: seq<Field>)
    requires fields == GnssFields(info, sn)
    ensures var text, g := Record(fields), sn.gnss;
      && ShowsNumber(text, "age_ms", g.ageMs) && ShowsNumber(text, "satellites", g.satellites)
      && ShowsNumber(text, "hdop_centi", g.hdopCenti) && ShowsNumber(text, "hacc_mm", g.haccMm)
      && ShowsNumber(text, "vacc_mm", g.vaccMm)
  {
    assert fields[4] in fields && fields[6] in fields && fields[7] in fields && fields[8] in fields && fields[9] in fields;
    CountMember(fields, "age_ms", sn.gnss.ageMs);
    CountMember(fields, "satellites", sn.gnss.satellites);
    CountMember(fields, "hdop_centi", sn.gnss.hdopCenti);
    CountMember(fields, "hacc_mm", sn.gnss.haccMm);
    CountMember(fields, "vacc_mm", sn.gnss.vaccMm);
  }

  lemma CadenceShown(sn: Snapshot)
    ensures ShowsCadence(Record(SolveFields(sn)), sn.solve)
  {
    var fields := SolveFields(sn);
    RecordShows(fields, "outcome", Text(OutcomeName(sn.solve.outcome)));
    CountMember(fields, "age_ms", sn.solve.ageMs);
    CountMember(fields, "elapsed_ms", sn.solve.elapsedMs);
    CountMember(fields, "interval_ms", sn.solve.intervalMs);
    CountMember(fields, "generation", sn.solve.generation);
    CountMember(fields, "last_generation", sn.solve.lastGeneration);
  }

  lemma PeerHeadShown(fields: seq<Field>, timeMs: uint32, p: PeerState, fmt: Decimals)
    requires fields == PeerFields(timeMs, p, fmt)
    ensures var text := Record(fields);
      && ShowsNumber(text, "id", p.nodeId) && Shows(text, "gnss", Flag(p.gnssValid))
      && Shows(text, "position_valid", Flag(Displayable(PeerSource(p), PeerStatus(p))))
  {
    assert fields[0] in fields && fields[1] in fields && fields[6] in fields;
    CountMember(fields, "id", p.nodeId);
    RecordShows(fields, "gnss", Flag(p.gnssValid));
    RecordShows(fields, "position_valid", Flag(Displayable(PeerSource(p), PeerStatus(p))));
  }

  lemma PeerRangeShown(fields: seq<Field>, timeMs: uint32, p: PeerState, fmt: Decimals)
    requires fields == PeerFields(timeMs, p, fmt)
    ensures var text := Record(fields);
      && ShowsNumber(text, "telemetry_age_ms", if timeMs < p.lastTelemetryMs then 0 else timeMs - p.lastTelemetryMs)
      && ShowsNumber(text, "range_mm", p.rangeMm) && Shows(text, "range_valid", Flag(p.rangeValid))
      && ShowsNumber(text, "rssi", p.rssiDbm) && ShowsNumber(text, "snr", p.snrDb)
      && Shows(text, "quality", Bare(fmt(p.anchorQuality, 3)))
  {
    assert fields[8] in fields && fields[9] in fields && fields[10] in fields && fields[11] in fields && fields[12] in fields;
    CountMember(fields, "telemetry_age_ms", TelemetryAge(timeMs, p));
    CountMember(fields, "range_mm", p.rangeMm);
    RecordShows(fields, "range_valid", Flag(p.rangeValid));
    SignedMember(fields, "rssi", p.rssiDbm);
    SignedMember(fields, "snr", p.snrDb);
    assert fields[13] in fields;
    RecordShows(fields, "quality", Bare(fmt(p.anchorQuality, 3)));
  }

  lemma PeerShown(timeMs: uint32, p: PeerState, fmt: Decimals)
    ensures ShowsPeer(PeerText(timeMs, p, fmt), timeMs, p, fmt)
  {
    var fields := PeerFields(timeMs, p, fmt);
    RunsInside(fields[..2], PositionFields(p.position), fields[5..], []);
    assert fields == fields[..2] + (PositionFields(p.position) + (fields[5..] + []));
    PositionMembers(fields, p.position);
    PeerHeadShown(fields, timeMs, p, fmt);
    PeerRangeShown(fields, timeMs, p, fmt);
  }

  lemma StillListed(timeMs: uint32, peers: seq<PeerState>, fmt: Decimals, text: string)
    requires peers != [] && text in PeerTexts(timeMs, peers[..|peers| - 1], fmt)
    ensures text in PeerTexts(timeMs, peers, fmt)
  {
  }

  lemma LastListed(timeMs: uint32, peers: seq<PeerState>, fmt: Decimals, text: string)
    requires peers != [] && peers[|peers| - 1].present && text == PeerText(timeMs, peers[|peers| - 1], fmt)
    ensures text in PeerTexts(timeMs, peers, fmt)
  {
  }

  /** Every peer that is present has its text in the list. */
  lemma {:induction false} PeerListed(timeMs: uint32, peers: seq<PeerState>, fmt: Decimals, p: PeerState, text: string)
    requires p in peers && p.present && text == PeerText(timeMs, p, fmt)
    ensures text in PeerTexts(timeMs, peers, fmt)
  {
    var k := |peers| - 1;
    if p == peers[k] {
      LastListed(timeMs, peers, fmt, text);
    } else {
      PeerListed(timeMs, peers[..k], fmt, p, text);
      StillListed(timeMs, peers, fmt, text);
    }
  }

  lemma ListContained(text: string, key: string, items: seq<string>, item: string)
    requires Shows(text, key, List(items)) && item in items
    ensures Contains(text, item)
  {
    var i :| 0 <= i < |items| && items[i] == item;
    var lead, raw := [QUOTE] + key + [QUOTE, ':'], "[" + Listed(items) + "]";
    ListedContains(items, i);
    ContainsPart("[", Listed(items), "]");
    ContainsThrough(raw, Listed(items), item);
    if Contains(text, lead + raw + ",") {
      ContainsPart(lead, raw, ",");
      ContainsThrough(text, lead + raw + ",", raw);
    } else {
      ContainsPart(lead, raw, "}");
      ContainsThrough(text, lead + raw + "}", raw);
    }
    ContainsThrough(text, raw, item);
  }

  /** A snapshot's text shows its time, its verdict, its place, its receiver, its cadence, and every peer present. */
  lemma SnapshotShows(info: NodeInfo, sn: Snapshot, peers: seq<PeerState>, fmt: Decimals)
    ensures var text := SnapshotText(info, sn, peers, fmt);
      && ShowsNumber(text, "t", sn.timeMs) && ShowsVerdict(text, sn) && ShowsPlace(text, sn)
      && ShowsScores(text, sn.diag, fmt) && ShowsDisplay(text, sn)
      && (exists inner: string ::
            ShowsObject(text, "local_gnss", inner) && ShowsReceiver(inner, sn.gnss, GnssUsage(info, sn)))
      && (exists inner: string :: ShowsObject(text, "radio_solve", inner) && ShowsCadence(inner, sn.solve))
      && (forall i :: 0 <= i < |peers| && peers[i].present ==>
            exists inner: string :: Contains(text, inner) && ShowsPeer(inner, sn.timeMs, peers[i], fmt))
  {
    SnapshotHas(info, sn, peers, fmt);
    MembersShow(SnapshotFields(info, sn, peers, fmt), info, sn, peers, fmt);
    PeersShow(SnapshotText(info, sn, peers, fmt), sn.timeMs, peers, fmt);
  }

  lemma PeersShow(text: string, timeMs: uint32, peers: seq<PeerState>, fmt: Decimals)
    requires Shows(text, "peers", List(PeerTexts(timeMs, peers, fmt)))
    ensures forall i :: 0 <= i < |peers| && peers[i].present ==>
      exists inner: string :: Contains(text, inner) && ShowsPeer(inner, timeMs, peers[i], fmt)
  {
    forall i | 0 <= i < |peers| && peers[i].present
      ensures exists inner: string :: Contains(text, inner) && ShowsPeer(inner, timeMs, peers[i], fmt)
    {
      var inner := PeerText(timeMs, peers[i], fmt);
      PeerListed(timeMs, peers, fmt, peers[i], inner);
      ListContained(text, "peers", PeerTexts(timeMs, peers, fmt), inner);
      PeerShown(timeMs, peers[i], fmt);
    }
  }

  lemma MembersShow(fields: seq<Field>, info: NodeInfo, sn: Snapshot, peers: seq<PeerState>, fmt: Decimals)
    requires fields != [] && Field("t", Number(sn.timeMs)) in fields
    requires (forall f <- VerdictFields(sn) :: f in fields) && (forall f <- PlaceFields(sn) :: f in fields)
    requires forall f <- AnchorFields(sn, fmt) :: f in fields
    requires forall f <- DisplayFields(SourceCode(sn.source), StatusCode(sn.status)) :: f in fields
    requires Field("local_gnss", Nested(GnssFields(info, sn))) in fields
    requires Field("radio_solve", Nested(SolveFields(sn))) in fields
    requires Field("peers", List(PeerTexts(sn.timeMs, peers, fmt))) in fields
    ensures var text := Record(fields);
      && ShowsNumber(text, "t", sn.timeMs) && ShowsVerdict(text, sn) && ShowsPlace(text, sn)
      && ShowsScores(text, sn.diag, fmt) && ShowsDisplay(text, sn)
      && (exists inner: string ::
            ShowsObject(text, "local_gnss", inner) && ShowsReceiver(inner, sn.gnss, GnssUsage(info, sn)))
      && (exists inner: string :: ShowsObject(text, "radio_solve", inner) && ShowsCadence(inner, sn.solve))
      && Shows(text, "peers", List(PeerTexts(sn.timeMs, peers, fmt)))
  {
    CountMember(fields, "t", sn.timeMs);
    VerdictShown(fields, sn);
    PlaceShown(fields, sn);
    ScoresShown(fields, sn, fmt);
    DisplayShown(fields, sn);
    ObjectShown(fields, "local_gnss", Record(GnssFields(info, sn)));
    ReceiverShown(info, sn);
    ObjectShown(fields, "radio_solve", Record(SolveFields(sn)));
    CadenceShown(sn);
    RecordShows(fields, "peers", List(PeerTexts(sn.timeMs, peers, fmt)));
  }

  lemma ObjectShown(fields: seq<Field>, key: string, inner: string)
    requires Field(key, Bare(inner)) in fields
    ensures ShowsObject(Record(fields), key, inner)
  {
    RecordShows(fields, key, Bare(inner));
  }

  /** The members the solution is told by. */
  lemma SnapshotHas(info: NodeInfo, sn: Snapshot, peers: seq<PeerState>, fmt: Decimals)
    ensures var fields := SnapshotFields(info, sn, peers, fmt);
      && Field("t", Number(sn.timeMs)) in fields
      && (forall f <- VerdictFields(sn) :: f in fields) && (forall f <- PlaceFields(sn) :: f in fields)
      && (forall f <- AnchorFields(sn, fmt) :: f in fields)
      && (forall f <- DisplayFields(SourceCode(sn.source), StatusCode(sn.status)) :: f in fields)
      && Field("local_gnss", Nested(GnssFields(info, sn))) in fields
      && Field("radio_solve", Nested(SolveFields(sn))) in fields
      && Field("peers", List(PeerTexts(sn.timeMs, peers, fmt))) in fields
  {
    HasParts([Field("t", Number(sn.timeMs))], [Field("node", Nested(NodeFields(info)))], VerdictFields(sn),
             PlaceFields(sn), AnchorFields(sn, fmt), DisplayFields(SourceCode(sn.source), StatusCode(sn.status)),
             [Field("local_gnss", Nested(GnssFields(info, sn)))], [Field("radio_solve", Nested(SolveFields(sn)))],
             [Field("peers", List(PeerTexts(sn.timeMs, peers, fmt)))]);
  }

  lemma HasParts(
    a: seq<Field>, b: seq<Field>, c: seq<Field>, d: seq<Field>, e: seq<Field>, f: seq<Field>, g: seq<Field>,
    h: seq<Field>, i: seq<Field>)
    ensures var all := a + (b + (c + (d + (e + (f + (g + (h + i)))))));
      && (forall x <- a :: x in all) && (forall x <- c :: x in all) && (forall x <- d :: x in all)
      && (forall x <- e :: x in all) && (forall x <- f :: x in all)
      && (forall x <- g :: x in all) && (forall x <- h :: x in all) && (forall x <- i :: x in all)
  {
  }

  // ---- the range and node-quality records -------------------------------

  /** A range record's text shows who ranged whom, and the range exactly as measured or why there is none. */
  lemma RangeShows(r: RangeRecord)
    ensures var text := Record(RangeFields(r));
      && ShowsNumber(text, "ts", r.timestampMs) && ShowsNumber(text, "from_id", r.fromId)
      && ShowsNumber(text, "to_id", r.toId) && ShowsNumber(text, "request_id", r.requestId)
      && Shows(text, "ok", Flag(r.ok)) && ShowsNumber(text, "rssi_dbm", r.rssiDbm) && ShowsNumber(text, "snr_db", r.snrDb)
      && (if r.ok then ShowsNumber(text, "range_mm", r.rangeMm) && ShowsNumber(text, "range_sigma_mm", r.rangeSigmaMm)
          else Shows(text, "range_fail_reason", Text(FailName(r.failReason))))
  {
    var fields, source := RangeFields(r), [Field("source", Text(SourceText(r)))];
    RunsInside(RangeOpening(r), RangeOutcome(r), RangeLink(r), source);
    RangeOpeningShows(fields, r);
    RangeOutcomeShows(fields, r);
    assert RangeLink(r)[0] in fields && RangeLink(r)[1] in fields;
    SignedMember(fields, "rssi_dbm", r.rssiDbm);
    SignedMember(fields, "snr_db", r.snrDb);
  }

  lemma RunsInside(a: seq<Field>, b: seq<Field>, c: seq<Field>, d: seq<Field>)
    ensures var all := a + (b + (c + d));
      (forall f <- a :: f in all) && (forall f <- b :: f in all) && (forall f <- c :: f in all) && (forall f <- d :: f in all)
  {
  }

  lemma RangeOpeningShows(fields: seq<Field>, r: RangeRecord)
    requires fields != [] && forall f <- RangeOpening(r) :: f in fields
    ensures var text := Record(fields);
      && ShowsNumber(text, "ts", r.timestampMs) && ShowsNumber(text, "from_id", r.fromId)
      && ShowsNumber(text, "to_id", r.toId) && ShowsNumber(text, "request_id", r.requestId)
      && Shows(text, "ok", Flag(r.ok))
  {
    var run := RangeOpening(r);
    assert run[1] in fields && run[2] in fields && run[3] in fields && run[4] in fields && run[5] in fields;
    CountMember(fields, "ts", r.timestampMs);
    CountMember(fields, "from_id", r.fromId);
    CountMember(fields, "to_id", r.toId);
    CountMember(fields, "request_id", r.requestId);
    RecordShows(fields, "ok", Flag(r.ok));
  }

  lemma RangeOutcomeShows(fields: seq<Field>, r: RangeRecord)
    requires fields != [] && forall f <- RangeOutcome(r) :: f in fields
    ensures var text := Record(fields);
      if r.ok then ShowsNumber(text, "range_mm", r.rangeMm) && ShowsNumber(text, "range_sigma_mm", r.rangeSigmaMm)
      else Shows(text, "range_fail_reason", Text(FailName(r.failReason)))
  {
    var run := RangeOutcome(r);
    assert run[0] in fields;
    if r.ok {
      assert run[1] in fields;
      CountMember(fields, "range_mm", r.rangeMm);
      CountMember(fields, "range_sigma_mm", r.rangeSigmaMm);
    } else {
      RecordShows(fields, "range_fail_reason", Text(FailName(r.failReason)));
    }
  }

  /** A node-quality record's text shows its node, its age and, inside its data, the receiver's figures. */
  lemma QualityShows(r: Telemetry.QualityReport, timestampMs: uint32, ageMs: uint32, origin: Option<string>, fmt: Decimals)
    requires |r.anchorIds| == NAV_TRILAT_ANCHOR_COUNT
    ensures var text := Record(QualityRecordFields(r, timestampMs, ageMs, origin, fmt));
      && ShowsNumber(text, "ts", timestampMs) && ShowsNumber(text, "node_id", r.nodeId)
      && Shows(text, "origin", Text(OriginText(origin))) && ShowsNumber(text, "age_ms", ageMs)
      && exists inner: string :: ShowsObject(text, "data", inner) && ShowsReport(inner, r) && ShowsReportScores(inner, r, fmt)
  {
    var fields := QualityRecordFields(r, timestampMs, ageMs, origin, fmt);
    var head, data := QualityEnvelope(r, timestampMs), [Field("data", Nested(QualityFields(r, fmt)))];
    RunsInside(head, [Field("origin", Text(OriginText(origin)))], [Field("age_ms", Number(ageMs))], data);
    assert head[1] in fields && head[2] in fields && data[0] in fields;
    CountMember(fields, "ts", timestampMs);
    CountMember(fields, "node_id", r.nodeId);
    assert [Field("origin", Text(OriginText(origin)))][0] in fields && [Field("age_ms", Number(ageMs))][0] in fields;
    RecordShows(fields, "origin", Text(OriginText(origin)));
    CountMember(fields, "age_ms", ageMs);
    ObjectShown(fields, "data", Record(QualityFields(r, fmt)));
    ReportShown(r, fmt);
  }

  ghost predicate ShowsReportScores(text: string, r: Telemetry.QualityReport, fmt: Decimals) {
    && Shows(text, "residual_rms_m", Bare(fmt(r.residualRmsMm as real / 1000.0, 3)))
    && Shows(text, "max_residual_m", Bare(fmt(r.maxResidualMm as real / 1000.0, 3)))
    && Shows(text, "geometry_score", Bare(fmt(r.geometryScore, 3))) && Shows(text, "total_quality", Bare(fmt(r.totalQuality, 3)))
    && Shows(text, "nav_mode", Text(ModeName(r.navMode))) && Shows(text, "solution_status", Text(StatusName(r.solutionStatus)))
    && Shows(text, "solution_source", Text(SourceName(r.solutionSource)))
  }

  lemma ReportFiguresShown(fields: seq<Field>, r: Telemetry.QualityReport, fmt: Decimals)
    requires |r.anchorIds| == NAV_TRILAT_ANCHOR_COUNT
    requires fields != [] && forall f <- QualityScores(r, fmt) :: f in fields
    ensures var text := Record(fields);
      && Shows(text, "residual_rms_m", Bare(fmt(r.residualRmsMm as real / 1000.0, 3)))
      && Shows(text, "max_residual_m", Bare(fmt(r.maxResidualMm as real / 1000.0, 3)))
      && Shows(text, "geometry_score", Bare(fmt(r.geometryScore, 3)))
      && Shows(text, "total_quality", Bare(fmt(r.totalQuality, 3)))
  {
    var run := QualityScores(r, fmt);
    assert run[3] in fields && run[4] in fields && run[5] in fields && run[6] in fields;
    RecordShows(fields, "residual_rms_m", run[3].value);
    RecordShows(fields, "max_residual_m", run[4].value);
    RecordShows(fields, "geometry_score", run[5].value);
    RecordShows(fields, "total_quality", run[6].value);
  }

  lemma ReportWordsShown(fields: seq<Field>, r: Telemetry.QualityReport, fmt: Decimals)
    requires |r.anchorIds| == NAV_TRILAT_ANCHOR_COUNT
    requires fields != [] && forall f <- QualityScores(r, fmt) :: f in fields
    ensures var text := Record(fields);
      && Shows(text, "nav_mode", Text(ModeName(r.navMode)))
      && Shows(text, "solution_status", Text(StatusName(r.solutionStatus)))
      && Shows(text, "solution_source", Text(SourceName(r.solutionSource)))
  {
    var run := QualityScores(r, fmt);
    assert run[0] in fields && run[1] in fields && run[2] in fields;
    RecordShows(fields, "nav_mode", run[0].value);
    RecordShows(fields, "solution_status", run[1].value);
    RecordShows(fields, "solution_source", run[2].value);
  }

  lemma ReportScoresShown(fields: seq<Field>, r: Telemetry.QualityReport, fmt: Decimals)
    requires |r.anchorIds| == NAV_TRILAT_ANCHOR_COUNT
    requires fields != [] && forall f <- QualityScores(r, fmt) :: f in fields
    ensures ShowsReportScores(Record(fields), r, fmt)
  {
    ReportFiguresShown(fields, r, fmt);
    ReportWordsShown(fields, r, fmt);
  }

  ghost predicate ShowsReport(text: string, r: Telemetry.QualityReport)
    requires |r.anchorIds| == NAV_TRILAT_ANCHOR_COUNT
  {
    && ShowsNumber(text, "num_anchors", if r.numAnchors < 3 then r.numAnchors else 3)
    && Shows(text, "anchor_ids", List(IdTexts(AnchorsShown(r)))) && ShowsNumber(text, "satellites", r.satellites)
    && ShowsNumber(text, "hdop_centi", r.hdopCenti) && ShowsNumber(text, "hacc_mm", r.haccMm)
    && ShowsNumber(text, "vacc_mm", r.vaccMm) && ShowsPosition(text, r.position)
    && ShowsNumber(text, "packet_seq", r.packetSeq)
  }

  lemma ReportShown(r: Telemetry.QualityReport, fmt: Decimals)
    requires |r.anchorIds| == NAV_TRILAT_ANCHOR_COUNT
    ensures ShowsReport(Record(QualityFields(r, fmt)), r) && ShowsReportScores(Record(QualityFields(r, fmt)), r, fmt)
  {
    var fields, ids := QualityFields(r, fmt), [Field("anchor_ids", List(IdTexts(AnchorsShown(r))))];
    RunsInside(QualityScores(r, fmt), ids, QualityReceiver(r), []);
    assert QualityReceiver(r) + [] == QualityReceiver(r);
    assert QualityScores(r, fmt)[7] in fields && ids[0] in fields;
    CountMember(fields, "num_anchors", |AnchorsShown(r)|);
    RecordShows(fields, "anchor_ids", List(IdTexts(AnchorsShown(r))));
    ReportScoresShown(fields, r, fmt);
    ReceiverFigures(fields, r);
    PositionInReceiver(r);
    PositionMembers(fields, r.position);
  }

  lemma PositionInReceiver(r: Telemetry.QualityReport)
    ensures forall f <- PositionFields(r.position) :: f in QualityReceiver(r)
  {
    var run := QualityReceiver(r);
    RunsInside(run[..5], PositionFields(r.position), run[8..], []);
    assert run == run[..5] + (PositionFields(r.position) + (run[8..] + []));
  }

  lemma ReceiverFigures(fields: seq<Field>, r: Telemetry.QualityReport)
    requires fields != [] && forall f <- QualityReceiver(r) :: f in fields
    ensures var text := Record(fields);
      && ShowsNumber(text, "satellites", r.satellites) && ShowsNumber(text, "hdop_centi", r.hdopCenti)
      && ShowsNumber(text, "hacc_mm", r.haccMm) && ShowsNumber(text, "vacc_mm", r.vaccMm)
      && ShowsNumber(text, "packet_seq", r.packetSeq)
  {
    var run := QualityReceiver(r);
    assert run[1] in fields && run[2] in fields && run[3] in fields && run[4] in fields && run[8] in fields;
    CountMember(fields, "satellites", r.satellites);
    CountMember(fields, "hdop_centi", r.hdopCenti);
    CountMember(fields, "hacc_mm", r.haccMm);
    CountMember(fields, "vacc_mm", r.vaccMm);
    CountMember(fields, "packet_seq", r.packetSeq);
  }

  // ---- the words --------------------------------------------------------

  /** The words for the codes nodes report of each other, and those for fix types, fail reasons, reject reasons and solve outcomes. */
  lemma WordsAre()
    ensures ModeName(0) == "BOOT" && ModeName(1) == "GNSS_ACQUIRE" && ModeName(2) == "GNSS_OK"
    ensures ModeName(3) == "GNSS_SUSPECT" && ModeName(4) == "GPS_DENIED" && ModeName(5) == "RADIO_NAV_OK"
    ensures ModeName(6) == "RADIO_NAV_DEGRADED" && ModeName(7) == "NO_NAV_SOLUTION" && ModeName(8) == "DEMO_FORCED_DENIED"
    ensures StatusName(0) == "NONE" && StatusName(1) == "GNSS_DIRECT" && StatusName(2) == "RADIO_3D"
    ensures StatusName(3) == "DEGRADED" && StatusName(4) == "REJECTED"
    ensures SourceName(0) == "NONE" && SourceName(1) == "LOCAL_GNSS" && SourceName(2) == "RADIO_3D"
    ensures SourceName(3) == "REPLAY" && SourceName(4) == "SIM"
    ensures FixName(0) == "NONE" && FixName(2) == "2D" && FixName(3) == "3D" && FixName(4) == "RTK_FLOAT"
    ensures FixName(5) == "RTK_FIXED" && FixName(1) == "UNKNOWN" && (forall c: uint8 :: c > 5 ==> FixName(c) == "UNKNOWN")
    ensures FailName(0) == "NONE" && FailName(1) == "TIMEOUT" && FailName(2) == "NO_RESPONSE" && FailName(3) == "RADIO_BUSY"
    ensures FailName(4) == "BAD_FRAME" && FailName(5) == "RANGING_ENGINE_ERROR" && FailName(6) == "ABORTED"
    ensures forall c: uint8 :: c > 6 ==> FailName(c) == "UNKNOWN"
    ensures RejectName(NotRejected) == "NONE" && RejectName(StaleTelemetry) == "STALE_TELEMETRY"
    ensures RejectName(StaleRange) == "STALE_RANGE" && RejectName(BadGnss) == "BAD_GNSS"
    ensures RejectName(BadPosition) == "BAD_POSITION" && RejectName(BadRangeSigma) == "BAD_RANGE_SIGMA"
    ensures RejectName(RangeOutlier) == "RANGE_OUTLIER" && RejectName(BadGeometry) == "BAD_GEOMETRY"
    ensures RejectName(NotEnoughAnchors) == "NOT_ENOUGH_ANCHORS"
    ensures RejectName(MissingLocalAltitude) == "MISSING_LOCAL_ALTITUDE"
    ensures RejectName(TrilaterationFailed) == "TRILATERATION_FAILED"
    ensures OutcomeName(OutcomeNone) == "NONE" && OutcomeName(OutcomeGnssDirect) == "GNSS_DIRECT"
    ensures OutcomeName(OutcomeSolved) == "SOLVED" && OutcomeName(OutcomeRejected) == "REJECTED"
    ensures OutcomeName(OutcomeSkippedCadence) == "SKIPPED_CADENCE"
    ensures OutcomeName(OutcomeSkippedUnchanged) == "SKIPPED_UNCHANGED_INPUTS"
  {
  }

  /** What stands for a name, an origin or a source that is not given. */
  lemma DefaultsAre(info: NodeInfo, r: RangeRecord)
    ensures NameText(info) == if info.name.Some? then info.name.value else ""
    ensures SourceText(r) == if r.source.Some? then r.source.value else "log"
    ensures OriginText(None) == "peer" && forall t: string :: OriginText(Some(t)) == t
  {
  }

  /** The receiver's use is told by the solution first, then by whether it is switched on. */
  lemma UsageMeans(info: NodeInfo, sn: Snapshot)
    ensures GnssUsage(info, sn) == "solution" <==> sn.gnss.used
    ensures GnssUsage(info, sn) == "enabled" <==> !sn.gnss.used && info.gpsEnabled
    ensures GnssUsage(info, sn) == "disabled" <==> !sn.gnss.used && !info.gpsEnabled
  {
  }
}
