/** What a receiver writes is what the reader reads: fixes as NMEA sentences, and back as samples. */
module NmeaRoundTrip {
  import opened Words
  import opened NavTypes
  import opened Nmea

  // ---- fields of a written sentence -------------------------------------

  /** A number in a field, or an empty field. */
  datatype Measure = Unknown | Measure(text: Bytes, value: real)

  /** A coordinate in its two fields, or two empty fields. */
  datatype Angle = NoAngle | Angle(text: Bytes, degrees: nat, minutes: real, letter: bv8)

  function MeasureField(m: Measure): Bytes {
    if m.Unknown? then [] else m.text
  }

  function AngleFields(a: Angle): seq<Bytes> {
    if a.NoAngle? then [[], []] else [a.text, [a.letter]]
  }

  predicate ReadsMeasure(lib: NumericLib, m: Measure) {
    m.Measure? ==> m.text != [] && lib.toDouble(m.text) == Some(m.value)
  }

  /** The field reads as `dddmm.mm`, within the range of its kind. */
  predicate ReadsAngle(lib: NumericLib, a: Angle, letters: set<bv8>, maxDegrees: nat) {
    a.Angle? ==>
      && a.text != [] && lib.toDouble(a.text) == Some(100.0 * a.degrees as real + a.minutes)
      && a.degrees <= maxDegrees && 0.0 <= a.minutes < 60.0 && a.letter in letters
  }

  /** N and S, E and W, in either case. */
  const LAT_LETTERS: set<bv8> := {0x4e, 0x53, 0x6e, 0x73}
  const LON_LETTERS: set<bv8> := {0x45, 0x57, 0x65, 0x77}

  function ValueOf(m: Measure): real {
    if m.Unknown? then 0.0 else m.value
  }

  /** A coordinate in units of 1e-7 degrees, south and west negative. */
  function E7Of(a: Angle): int {
    if a.NoAngle? then 0
    else
      var magnitude := (a.degrees as real + a.minutes / 60.0) * 10000000.0;
      RoundHalfAway(if a.letter in {0x53, 0x57, 0x73, 0x77} then -magnitude else magnitude)
  }

  lemma NegatedProduct(x: real, k: real)
    ensures (-x) * k == -(x * k)
  {
  }

  lemma AngleReads(lib: NumericLib, a: Angle, longitude: bool)
    requires a.Angle? && ReadsAngle(lib, a, if longitude then LON_LETTERS else LAT_LETTERS, if longitude then 180 else 90)
    ensures ParseCoordinate(lib, AngleFields(a)[0], AngleFields(a)[1], longitude) == Some(E7Of(a))
  {
    CoordinateMeaning(lib, a.text, a.letter, longitude, a.degrees, a.minutes);
    NegatedProduct(a.degrees as real + a.minutes / 60.0, 10000000.0);
  }

  // ---- a position fix, as a GGA sentence --------------------------------

  /** What a receiver knows when it writes a GGA sentence; `tail` is whatever follows the altitude. */
  datatype GgaFix = GgaFix(
    talker: Bytes, time: Bytes, lat: Angle, lon: Angle, quality: nat, qualityText: Bytes, satellites: nat,
    satellitesText: Bytes, hdop: Measure, altitudeM: Measure, tail: seq<Bytes>)

  function GgaFields(g: GgaFix): seq<Bytes> {
    [g.talker, g.time] + AngleFields(g.lat) + AngleFields(g.lon)
    + [g.qualityText, g.satellitesText, MeasureField(g.hdop), MeasureField(g.altitudeM)] + g.tail
  }

  /** The number readers read the fields as what they stand for, and all of it fits the sample. */
  predicate GgaReads(lib: NumericLib, g: GgaFix) {
    && (g.talker == GPGGA || g.talker == GNGGA)
    && ReadsAngle(lib, g.lat, LAT_LETTERS, 90) && ReadsAngle(lib, g.lon, LON_LETTERS, 180)
    && g.qualityText != [] && lib.toLong(g.qualityText) == Some(g.quality) && g.quality <= 99
    && g.satellitesText != [] && lib.toLong(g.satellitesText) == Some(g.satellites) && g.satellites <= 255
    && ReadsMeasure(lib, g.hdop) && 0 <= RoundHalfAway(ValueOf(g.hdop) * 100.0) < 0x1_0000
    && ReadsMeasure(lib, g.altitudeM) && -0x8000_0000 <= RoundHalfAway(ValueOf(g.altitudeM) * 1000.0) < 0x8000_0000
    && (g.quality > 0 ==> g.lat.Angle? && g.lon.Angle?)
  }

  function GgaFixType(quality: nat): uint8 {
    match quality
    case 0 => 0
    case 4 => 5
    case 5 => 4
    case _ => 3
  }

  lemma E7Fits(lib: NumericLib, a: Angle, longitude: bool)
    requires ReadsAngle(lib, a, if longitude then LON_LETTERS else LAT_LETTERS, if longitude then 180 else 90)
    ensures -0x8000_0000 <= E7Of(a) < 0x8000_0000
  {
    if a.Angle? {
      AngleReads(lib, a, longitude);
    }
  }

  /** The sample a fix amounts to. */
  function GgaSample(lib: NumericLib, g: GgaFix): GnssSample
    requires GgaReads(lib, g)
  {
    E7Fits(lib, g.lat, false);
    E7Fits(lib, g.lon, true);
    GnssSample(0, 0, Position(E7Of(g.lat), E7Of(g.lon), RoundHalfAway(ValueOf(g.altitudeM) * 1000.0)), Velocity(0, 0, 0),
               GgaFixType(g.quality), g.quality > 0, g.satellites, RoundHalfAway(ValueOf(g.hdop) * 100.0), 0, 0)
  }

  lemma LatLonReads(lib: NumericLib, lat: Angle, lon: Angle, f: seq<Bytes>, valid: bool)
    requires ReadsAngle(lib, lat, LAT_LETTERS, 90) && ReadsAngle(lib, lon, LON_LETTERS, 180)
    requires f == AngleFields(lat) + AngleFields(lon) && (valid ==> lat.Angle? && lon.Angle?)
    ensures ParseLatLon(lib, f, valid) == Some((E7Of(lat), E7Of(lon)))
  {
    if lat.Angle? {
      AngleReads(lib, lat, false);
    }
    if lon.Angle? {
      AngleReads(lib, lon, true);
    }
  }

  lemma MeasureReads(lib: NumericLib, m: Measure)
    requires ReadsMeasure(lib, m)
    ensures ParseOptionalDouble(lib, MeasureField(m)) == Some(ValueOf(m))
  {
  }

  /** A written GGA sentence is read as its fix. */
  lemma GgaIsRead(lib: NumericLib, g: GgaFix)
    requires GgaReads(lib, g)
    ensures ParseFields(lib, GgaFields(g)) == SampleReady(GgaSample(lib, g))
  {
    var f := GgaFields(g);
    assert f[2..6] == AngleFields(g.lat) + AngleFields(g.lon);
    LatLonReads(lib, g.lat, g.lon, f[2..6], g.quality != 0);
    MeasureReads(lib, g.hdop);
    MeasureReads(lib, g.altitudeM);
  }

  // ---- a minimum fix, as an RMC sentence --------------------------------

  /** The status letter is A for an active fix and V for none, in either case. */
  datatype RmcFix = RmcFix(talker: Bytes, time: Bytes, active: bool, lowerCase: bool, lat: Angle, lon: Angle, tail: seq<Bytes>)

  function StatusLetter(m: RmcFix): bv8 {
    if m.active then (if m.lowerCase then 0x61 else 0x41) else if m.lowerCase then 0x76 else 0x56
  }

  function RmcFields(m: RmcFix): seq<Bytes> {
    [m.talker, m.time, [StatusLetter(m)]] + AngleFields(m.lat) + AngleFields(m.lon) + m.tail
  }

  predicate RmcReads(lib: NumericLib, m: RmcFix) {
    && (m.talker == GPRMC || m.talker == GNRMC)
    && ReadsAngle(lib, m.lat, LAT_LETTERS, 90) && ReadsAngle(lib, m.lon, LON_LETTERS, 180)
    && (m.active ==> m.lat.Angle? && m.lon.Angle?)
  }

  function RmcSample(lib: NumericLib, m: RmcFix): GnssSample
    requires RmcReads(lib, m)
  {
    E7Fits(lib, m.lat, false);
    E7Fits(lib, m.lon, true);
    GnssSample(0, 0, Position(E7Of(m.lat), E7Of(m.lon), 0), Velocity(0, 0, 0), if m.active then 3 else 0, m.active, 0, 0, 0, 0)
  }

  /** A written RMC sentence is read as its fix. */
  lemma RmcIsRead(lib: NumericLib, m: RmcFix)
    requires RmcReads(lib, m)
    ensures ParseFields(lib, RmcFields(m)) == SampleReady(RmcSample(lib, m))
  {
    var f := RmcFields(m);
    assert f[3..7] == AngleFields(m.lat) + AngleFields(m.lon);
    LatLonReads(lib, m.lat, m.lon, f[3..7], m.active);
  }

  // ---- payload and sentence ---------------------------------------------

  predicate NoCommas(fields: seq<Bytes>) {
    forall k :: 0 <= k < |fields| ==> COMMA !in fields[k]
  }

  /** The payload from `start` on is this text. */
  predicate EndsIn(p: Bytes, start: nat, s: Bytes) {
    start + |s| == |p| && forall k :: 0 <= k < |s| ==> p[start + k] == s[k]
  }

  lemma EndParts(p: Bytes, start: nat, head: Bytes, rest: Bytes)
    requires EndsIn(p, start, head + [COMMA] + rest)
    ensures start + |head| < |p| && p[start + |head|] == COMMA && EndsIn(p, start + |head| + 1, rest)
    ensures forall k :: 0 <= k < |head| ==> p[start + k] == head[k]
  {
    var s := head + [COMMA] + rest;
    assert s[|head|] == COMMA;
    forall k | 0 <= k < |head|
      ensures p[start + k] == head[k]
    {
      assert p[start + k] == s[k];
    }
    forall k | 0 <= k < |rest|
      ensures p[start + |head| + 1 + k] == rest[k]
    {
      assert p[start + (|head| + 1 + k)] == s[|head| + 1 + k];
    }
  }

  /** The first field of what is left ends at its comma. */
  lemma FirstField(p: Bytes, start: nat, head: Bytes)
    requires start + |head| < |p| && p[start + |head|] == COMMA && COMMA !in head
    requires forall k :: 0 <= k < |head| ==> p[start + k] == head[k]
    ensures IndexFrom(p, COMMA, start) == start + |head| && p[start..start + |head|] == head
  {
    forall k | start <= k < start + |head|
      ensures p[k] != COMMA
    {
      assert p[start + (k - start)] == head[k - start];
    }
    IndexFromIs(p, COMMA, start, start + |head|);
  }

  lemma LastField(p: Bytes, start: nat, field: Bytes, room: nat)
    requires EndsIn(p, start, field) && COMMA !in field && room >= 1
    ensures FieldsFrom(p, start, room) == [field]
  {
    forall k | start <= k < |p|
      ensures p[k] != COMMA
    {
      assert p[start + (k - start)] == field[k - start];
    }
    IndexFromIs(p, COMMA, start, |p|);
    assert p[start..] == field;
  }

  lemma FieldsPrepend(p: Bytes, start: nat, head: Bytes, rest: seq<Bytes>, room: nat)
    requires room > 1 && start + |head| < |p| && IndexFrom(p, COMMA, start) == start + |head|
    requires p[start..start + |head|] == head && FieldsFrom(p, start + |head| + 1, room - 1) == rest
    ensures FieldsFrom(p, start, room) == [head] + rest
  {
  }

  lemma JoinSplits(fields: seq<Bytes>)
    requires |fields| > 1 && NoCommas(fields)
    ensures Join(fields) == fields[0] + [COMMA] + Join(fields[1..])
    ensures fields[1..] != [] && NoCommas(fields[1..]) && COMMA !in fields[0]
    ensures [fields[0]] + fields[1..] == fields
  {
  }

  lemma StepOverField(p: Bytes, start: nat, fields: seq<Bytes>) returns (next: nat)
    requires |fields| > 1 && NoCommas(fields) && EndsIn(p, start, Join(fields))
    ensures next == start + |fields[0]| + 1 <= |p| && EndsIn(p, next, Join(fields[1..])) && NoCommas(fields[1..])
    ensures IndexFrom(p, COMMA, start) == next - 1 && p[start..next - 1] == fields[0]
  {
    JoinSplits(fields);
    EndParts(p, start, fields[0], Join(fields[1..]));
    FirstField(p, start, fields[0]);
    next := start + |fields[0]| + 1;
  }

  /** Cutting joined fields gives the fields back. */
  lemma {:induction false} FieldsOfJoin(p: Bytes, start: nat, fields: seq<Bytes>, room: nat)
    requires fields != [] && |fields| <= room && NoCommas(fields) && EndsIn(p, start, Join(fields))
    ensures FieldsFrom(p, start, room) == fields
    decreases |fields|
  {
    if |fields| == 1 {
      LastField(p, start, fields[0], room);
    } else {
      var next := StepOverField(p, start, fields);
      FieldsOfJoin(p, next, fields[1..], room - 1);
      FieldsPrepend(p, start, fields[0], fields[1..], room);
    }
  }

  /** The fields fit one sentence: no more than the reader takes, none with a comma, and short enough together. */
  predicate Fits(fields: seq<Bytes>) {
    && 0 < |fields| <= NAV_NMEA_MAX_FIELDS && NoCommas(fields)
    && Join(fields) != [] && Sendable(Join(fields))
  }

  lemma PayloadIsRead(lib: NumericLib, fields: seq<Bytes>)
    requires Fits(fields)
    ensures ParsePayload(lib, Join(fields)) == ParseFields(lib, fields)
  {
    FieldsOfJoin(Join(fields), 0, fields, NAV_NMEA_MAX_FIELDS);
  }

  /** A hexadecimal digit, its letters in either case. */
  function HexDigit(n: bv8, lowerCase: bool): bv8
    requires n < 16
  {
    if n < 10 then 0x30 + n else (if lowerCase then 0x61 else 0x41) + (n - 10)
  }

  lemma DigitReads(n: bv8, lowerCase: bool)
    requires n < 16
    ensures HexValue(HexDigit(n, lowerCase)) == Some(n)
  {
  }

  lemma NibblesJoin(c: bv8)
    ensures c >> 4 < 16 && c & 0x0f < 16 && HexByte(c >> 4, c & 0x0f) == c
  {
  }

  /** The sentence a writer sends: its payload with the checksum's two digits. */
  function Written(fields: seq<Bytes>, lowerCase: bool): (s: Sentence)
    requires Fits(fields)
    ensures WellFormed(s) && ChecksumAgrees(s) && s.payload == Join(fields)
  {
    var c := Checksum(Join(fields));
    NibblesJoin(c);
    DigitReads(c >> 4, lowerCase);
    DigitReads(c & 0x0f, lowerCase);
    Sentence(Join(fields), HexDigit(c >> 4, lowerCase), HexDigit(c & 0x0f, lowerCase))
  }

  lemma WrittenIsReported(lib: NumericLib, r: Reader, fields: seq<Bytes>, lowerCase: bool)
    requires Fits(fields)
    ensures Reports(lib, r, Wire(Written(fields, lowerCase))) == [ParseFields(lib, fields)]
  {
    PayloadIsRead(lib, fields);
    StreamingIsParsing(lib, r, Written(fields, lowerCase));
  }

  /** A fix written as a GGA sentence and sent byte by byte comes out as that fix's sample, from any state. */
  lemma GgaRoundTrip(lib: NumericLib, r: Reader, g: GgaFix, lowerCase: bool)
    requires GgaReads(lib, g) && Fits(GgaFields(g))
    ensures Reports(lib, r, Wire(Written(GgaFields(g), lowerCase))) == [SampleReady(GgaSample(lib, g))]
  {
    GgaIsRead(lib, g);
    WrittenIsReported(lib, r, GgaFields(g), lowerCase);
  }

  /** And so does one written as an RMC sentence. */
  lemma RmcRoundTrip(lib: NumericLib, r: Reader, m: RmcFix, lowerCase: bool)
    requires RmcReads(lib, m) && Fits(RmcFields(m))
    ensures Reports(lib, r, Wire(Written(RmcFields(m), lowerCase))) == [SampleReady(RmcSample(lib, m))]
  {
    RmcIsRead(lib, m);
    WrittenIsReported(lib, r, RmcFields(m), lowerCase);
  }

  // ---- lines that are no sentences --------------------------------------

  lemma TextReported(lib: NumericLib, r: Reader, text: Bytes)
    requires text != [] && |text| < NAV_NMEA_MAX_SENTENCE_LEN && ParseSentence(lib, text) != NoResult
    requires forall i :: 0 <= i < |text| ==> Plain(text[i]) || text[i] == STAR
    ensures Reports(lib, r, [DOLLAR] + text + [CR]) == [ParseSentence(lib, text)]
  {
    DollarStarts(lib, r);
    CollectsQuietly(lib, Reader([], true), text);
    assert [] + text == text;
    LineEndReports(lib, text);
    ReadInTwo(lib, r, [DOLLAR], text);
    ReadInTwo(lib, r, [DOLLAR] + text, [CR]);
  }

  /** A line without a checksum, or with anything after it, is reported as malformed. */
  lemma OnlyChecksummedLinesAreRead(lib: NumericLib, r: Reader, payload: Bytes, ending: Bytes)
    requires payload + ending != [] && |payload + ending| < NAV_NMEA_MAX_SENTENCE_LEN
    requires forall i :: 0 <= i < |payload| ==> Plain(payload[i])
    requires ending == [] || (ending[0] == STAR && |ending| != 3 && forall i :: 1 <= i < |ending| ==> Plain(ending[i]))
    ensures Reports(lib, r, [DOLLAR] + (payload + ending) + [CR]) == [MalformedSentence]
  {
    var text := payload + ending;
    IndexFromIs(text, NUL, 0, |text|);
    IndexFromIs(text, STAR, 0, if ending == [] then |text| else |payload|);
    TextReported(lib, r, text);
  }

  lemma CollectsMore(lib: NumericLib, text: Bytes, bytes: Bytes)
    requires |text| < NAV_NMEA_MAX_SENTENCE_LEN && |text| + |bytes| >= NAV_NMEA_MAX_SENTENCE_LEN
    requires forall i :: 0 <= i < |bytes| ==> Plain(bytes[i]) || bytes[i] == STAR
    ensures Reports(lib, Reader(text, true), bytes) == [SentenceOverflow]
    ensures After(lib, Reader(text, true), bytes) == Reader([], false)
    decreases |bytes|
  {
    if |text| + 1 >= NAV_NMEA_MAX_SENTENCE_LEN {
      IgnoredOutside(lib, [], bytes[1..]);
    } else {
      CollectsMore(lib, text + [bytes[0]], bytes[1..]);
    }
  }

  /** Outside a sentence nothing but a dollar sign matters. */
  lemma {:induction false} IgnoredOutside(lib: NumericLib, text: Bytes, bytes: Bytes)
    requires forall i :: 0 <= i < |bytes| ==> bytes[i] != DOLLAR
    ensures Reports(lib, Reader(text, false), bytes) == [] && After(lib, Reader(text, false), bytes) == Reader(text, false)
    decreases |bytes|
  {
    if bytes != [] {
      IgnoredOutside(lib, text, bytes[1..]);
    }
  }

  /** A line that is too long is reported as overflowing, once, and the rest of it is ignored up to the next dollar. */
  lemma OverlongReportedOnce(lib: NumericLib, r: Reader, line: Bytes)
    requires |line| >= NAV_NMEA_MAX_SENTENCE_LEN
    requires forall i :: 0 <= i < |line| ==> Plain(line[i]) || line[i] == STAR
    ensures Reports(lib, r, [DOLLAR] + line + [CR]) == [SentenceOverflow]
    ensures After(lib, r, [DOLLAR] + line + [CR]) == Reader([], false)
  {
    DollarStarts(lib, r);
    CollectsMore(lib, [], line);
    IgnoredOutside(lib, [], [CR]);
    ReadInTwo(lib, r, [DOLLAR], line);
    ReadInTwo(lib, r, [DOLLAR] + line, [CR]);
  }

  /** A line feed ends a line as a carriage return does. */
  lemma LineFeedEnds(lib: NumericLib, r: Reader, line: Bytes)
    ensures Reports(lib, r, line + [LF]) == Reports(lib, r, line + [CR])
    ensures After(lib, r, line + [LF]) == After(lib, r, line + [CR])
  {
    ReadInTwo(lib, r, line, [LF]);
    ReadInTwo(lib, r, line, [CR]);
    assert [LF][1..] == [] && [CR][1..] == [];
  }

  /** An empty line is reported as nothing. */
  lemma EmptyLineIsSilent(lib: NumericLib, r: Reader)
    ensures Reports(lib, r, [DOLLAR, CR]) == []
  {
    DollarStarts(lib, r);
    ReadInTwo(lib, r, [DOLLAR], [CR]);
    assert [DOLLAR] + [CR] == [DOLLAR, CR] && [CR][1..] == [];
  }

  /** A checksummed sentence of another kind is reported as unsupported if its name has five letters, else as malformed. */
  lemma OtherSentencesReported(lib: NumericLib, r: Reader, fields: seq<Bytes>, lowerCase: bool)
    requires Fits(fields) && fields[0] !in {GPGGA, GNGGA, GPRMC, GNRMC}
    ensures Reports(lib, r, Wire(Written(fields, lowerCase)))
         == [if |fields[0]| == 5 then UnsupportedSentence else MalformedSentence]
  {
    WrittenIsReported(lib, r, fields, lowerCase);
  }
}
