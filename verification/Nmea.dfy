/** The streaming NMEA 0183 reader: bytes in, position samples out. */
module Nmea {
  import opened Words
  import opened NavTypes

  const NAV_NMEA_MAX_SENTENCE_LEN := 96
  const NAV_NMEA_MAX_FIELDS := 24

  const NUL: bv8 := 0x00
  const LF: bv8 := 0x0a
  const CR: bv8 := 0x0d
  const DOLLAR: bv8 := 0x24
  const STAR: bv8 := 0x2a
  const COMMA: bv8 := 0x2c

  type Bytes = seq<bv8>

  /** What a byte produced; the caller's sample is the zero sample except for `SampleReady`. */
  datatype NmeaResult =
    | NoResult
    | SampleReady(sample: GnssSample)
    | ChecksumError
    | UnsupportedSentence
    | MalformedSentence
    | SentenceOverflow

  /** The C library's number readers on a whole field: a value, or nothing if any of the field is left over. */
  datatype NumericLib = NumericLib(toLong: Bytes -> Option<int>, toDouble: Bytes -> Option<real>)

  // ---- characters -------------------------------------------------------

  function HexValue(c: bv8): Option<bv8> {
    if 0x30 <= c <= 0x39 then Some(c - 0x30)
    else if 0x41 <= c <= 0x46 then Some(c - 0x41 + 10)
    else if 0x61 <= c <= 0x66 then Some(c - 0x61 + 10)
    else None
  }

  function HexByte(high: bv8, low: bv8): bv8 {
    (high << 4) | low
  }

  function ToUpper(c: bv8): bv8 {
    if 0x61 <= c <= 0x7a then c - 0x20 else c
  }

  /** Where `c` first occurs from `start` on, or the length. */
  function IndexFrom(s: Bytes, c: bv8, start: nat): (i: nat)
    requires start <= |s|
    ensures start <= i <= |s| && (forall k :: start <= k < i ==> s[k] != c) && (i < |s| ==> s[i] == c)
    decreases |s| - start
  {
    if start == |s| || s[start] == c then start else IndexFrom(s, c, start + 1)
  }

  function IndexOf(s: Bytes, c: bv8): (i: nat)
    ensures i <= |s| && (forall k :: 0 <= k < i ==> s[k] != c) && (i < |s| ==> s[i] == c)
  {
    IndexFrom(s, c, 0)
  }

  lemma IndexFromIs(s: Bytes, c: bv8, start: nat, i: nat)
    requires start <= i <= |s| && (forall k :: start <= k < i ==> s[k] != c) && (i < |s| ==> s[i] == c)
    ensures IndexFrom(s, c, start) == i
  {
    assert i <= IndexFrom(s, c, start) && IndexFrom(s, c, start) <= i;
  }

  /** A string read from a NUL-terminated buffer, `NUL` past its end. */
  function At(s: Bytes, i: nat): bv8 {
    if i < |s| then s[i] else NUL
  }

  // ---- checksum ---------------------------------------------------------

  function Checksum(s: Bytes): bv8 {
    if s == [] then 0 else Checksum(s[..|s| - 1]) ^ s[|s| - 1]
  }

  lemma XorSwap(c: bv8, was: bv8, now: bv8, tail: bv8)
    ensures (c ^ was ^ now) ^ tail == (c ^ tail) ^ was ^ now
  {
  }

  lemma XorCancel(c: bv8, was: bv8, now: bv8)
    ensures c ^ now == (c ^ was) ^ was ^ now
    ensures was != now ==> c ^ was ^ now != c
  {
  }

  /** Changing one byte changes the checksum by that byte's bits. */
  lemma {:induction false} ChecksumOfChange(s: Bytes, i: nat, b: bv8)
    requires i < |s|
    ensures Checksum(s[i := b]) == Checksum(s) ^ s[i] ^ b
  {
    var k := |s| - 1;
    if i == k {
      assert s[i := b][..k] == s[..k];
      XorCancel(Checksum(s[..k]), s[k], b);
    } else {
      ChecksumOfChange(s[..k], i, b);
      assert s[i := b][..k] == s[..k][i := b];
      XorSwap(Checksum(s[..k]), s[i], b, s[k]);
    }
  }

  // ---- fields -----------------------------------------------------------

  /** The comma-separated fields from `start` on, at most `room` of them; the last takes whatever is left. */
  function FieldsFrom(p: Bytes, start: nat, room: nat): (r: seq<Bytes>)
    requires start <= |p| && room >= 1
    ensures 1 <= |r| <= room
    decreases room
  {
    var comma := IndexFrom(p, COMMA, start);
    if room == 1 || comma == |p| then [p[start..]] else [p[start..comma]] + FieldsFrom(p, comma + 1, room - 1)
  }

  function Fields(p: Bytes, room: nat): (r: seq<Bytes>)
    requires room >= 1
    ensures 1 <= |r| <= room
  {
    FieldsFrom(p, 0, room)
  }

  function Join(fields: seq<Bytes>): Bytes
    requires fields != []
  {
    if |fields| == 1 then fields[0] else fields[0] + [COMMA] + Join(fields[1..])
  }

  lemma RejoinStep(p: Bytes, start: nat, comma: nat, tail: seq<Bytes>, room: nat)
    requires start <= comma < |p| && p[comma] == COMMA && COMMA !in p[start..comma] && room > 1
    requires tail != [] && Join(tail) == p[comma + 1..] && OnlyLastHoldsCommas(tail, room - 1)
    ensures Join([p[start..comma]] + tail) == p[start..] && OnlyLastHoldsCommas([p[start..comma]] + tail, room)
  {
    OneMoreField(p[start..comma], tail, room);
  }

  lemma {:induction false} RejoinFrom(p: Bytes, start: nat, room: nat)
    requires start <= |p| && room >= 1
    ensures Join(FieldsFrom(p, start, room)) == p[start..] && OnlyLastHoldsCommas(FieldsFrom(p, start, room), room)
    decreases room
  {
    var comma := IndexFrom(p, COMMA, start);
    if room > 1 && comma < |p| {
      var tail := FieldsFrom(p, comma + 1, room - 1);
      assert FieldsFrom(p, start, room) == [p[start..comma]] + tail;
      RejoinFrom(p, comma + 1, room - 1);
      RejoinStep(p, start, comma, tail, room);
    }
  }

  /** Joining the fields with commas gives the payload back, and only a last field at the limit may hold a comma. */
  lemma FieldsRejoin(p: Bytes, room: nat)
    requires room >= 1
    ensures Join(Fields(p, room)) == p && OnlyLastHoldsCommas(Fields(p, room), room)
  {
    RejoinFrom(p, 0, room);
    assert p[0..] == p;
  }

  predicate OnlyLastHoldsCommas(fields: seq<Bytes>, room: nat) {
    forall k :: 0 <= k < |fields| && k < room - 1 ==> COMMA !in fields[k]
  }

  lemma OneMoreField(head: Bytes, tail: seq<Bytes>, room: nat)
    requires room > 1 && tail != [] && COMMA !in head && OnlyLastHoldsCommas(tail, room - 1)
    ensures OnlyLastHoldsCommas([head] + tail, room)
    ensures Join([head] + tail) == head + [COMMA] + Join(tail)
  {
    assert ([head] + tail)[1..] == tail;
  }

  // ---- numbers ----------------------------------------------------------

  function ParseLong(lib: NumericLib, field: Bytes, min: int, max: int): Option<int> {
    if field == [] then None
    else
      match lib.toLong(field)
      case None => None
      case Some(v) => if min <= v <= max then Some(v) else None
  }

  function ParseDouble(lib: NumericLib, field: Bytes): Option<real> {
    if field == [] then None else lib.toDouble(field)
  }

  /** A field that may be left empty, standing for zero. */
  function ParseOptionalDouble(lib: NumericLib, field: Bytes): Option<real> {
    if field == [] then Some(0.0) else ParseDouble(lib, field)
  }

  function RoundToInt32(x: real): Option<int32> {
    var r := RoundHalfAway(x);
    if -0x8000_0000 <= r < 0x8000_0000 then Some(r) else None
  }

  function RoundToUint16(x: real): Option<uint16> {
    var r := RoundHalfAway(x);
    if 0 <= r < 0x1_0000 then Some(r) else None
  }

  const NORTH: bv8 := 0x4e
  const SOUTH: bv8 := 0x53
  const EAST: bv8 := 0x45
  const WEST: bv8 := 0x57

  predicate HemisphereFits(hemisphere: bv8, longitude: bool) {
    if longitude then hemisphere == EAST || hemisphere == WEST else hemisphere == NORTH || hemisphere == SOUTH
  }

  function MaxDegrees(longitude: bool): nat {
    if longitude then 180 else 90
  }

  function Signed(hemisphere: bv8, x: real): real {
    if hemisphere == SOUTH || hemisphere == WEST then -x else x
  }

  function ParseCoordinate(lib: NumericLib, value: Bytes, hemisphere: Bytes, longitude: bool): Option<int32> {
    if |hemisphere| != 1 then None
    else
      match ParseDouble(lib, value)
      case None => None
      case Some(raw) =>
        if raw < 0.0 then None
        else
          var degrees := (raw / 100.0).Floor;
          var minutes := raw - degrees as real * 100.0;
          if minutes < 0.0 || minutes >= 60.0 then None
          else
            var h := ToUpper(hemisphere[0]);
            if !HemisphereFits(h, longitude) || degrees > MaxDegrees(longitude) then None
            else RoundToInt32(Signed(h, degrees as real + minutes / 60.0) * 10000000.0)
  }

  function ParseOptionalCoordinate(lib: NumericLib, value: Bytes, hemisphere: Bytes, longitude: bool): Option<int32> {
    if value == [] then Some(0) else ParseCoordinate(lib, value, hemisphere, longitude)
  }

  lemma DegreesAndMinutes(raw: real, degrees: nat, minutes: real)
    requires 0.0 <= minutes < 100.0 && raw == 100.0 * degrees as real + minutes
    ensures (raw / 100.0).Floor == degrees
  {
    assert raw / 100.0 == degrees as real + minutes / 100.0;
  }

  lemma CoordinateRounds(degrees: nat, minutes: real, limit: nat, sign: real)
    requires degrees <= limit <= 180 && 0.0 <= minutes < 60.0 && (sign == 1.0 || sign == -1.0)
    ensures var r := RoundHalfAway(sign * (degrees as real + minutes / 60.0) * 10000000.0);
      -((limit + 1) * 10000000) <= r <= (limit + 1) * 10000000
  {
    var x := (degrees as real + minutes / 60.0) * 10000000.0;
    assert 0.0 <= minutes / 60.0 < 1.0;
    assert degrees as real <= limit as real;
    assert 0.0 <= x <= (limit as real + 1.0) * 10000000.0;
    assert sign * (degrees as real + minutes / 60.0) * 10000000.0 == sign * x;
  }

  /** `dddmm.mm` fields are read as degrees plus sixtieths, in 1e-7 degrees, exactly when the hemisphere letter fits
      and the whole degrees are within range. */
  lemma CoordinateMeaning(lib: NumericLib, value: Bytes, h: bv8, longitude: bool, degrees: nat, minutes: real)
    requires value != [] && 0.0 <= minutes < 60.0
    requires lib.toDouble(value) == Some(100.0 * degrees as real + minutes)
    ensures ParseCoordinate(lib, value, [h], longitude) ==
      if HemisphereFits(ToUpper(h), longitude) && degrees <= MaxDegrees(longitude) then
        Some(RoundHalfAway(Signed(ToUpper(h), degrees as real + minutes / 60.0) * 10000000.0))
      else None
  {
    DegreesAndMinutes(100.0 * degrees as real + minutes, degrees, minutes);
    if degrees <= MaxDegrees(longitude) {
      CoordinateRounds(degrees, minutes, MaxDegrees(longitude), 1.0);
      CoordinateRounds(degrees, minutes, MaxDegrees(longitude), -1.0);
    }
  }

  /** An accepted latitude stays within 90 degrees exactly if its whole degrees do not reach 90, or the minutes on top
      round away. */
  lemma LatitudeWithinNinety(lib: NumericLib, value: Bytes, h: bv8, degrees: nat, minutes: real)
    requires value != [] && 0.0 <= minutes < 60.0 && degrees <= MaxDegrees(false)
    requires lib.toDouble(value) == Some(100.0 * degrees as real + minutes) && HemisphereFits(ToUpper(h), false)
    ensures var c := ParseCoordinate(lib, value, [h], false);
      c.Some? && (-900000000 <= c.value <= 900000000 <==> degrees < 90 || minutes < 0.000003)
  {
    CoordinateMeaning(lib, value, h, false, degrees, minutes);
    ScaledDegrees(degrees, minutes);
  }

  lemma ScaledDegrees(degrees: nat, minutes: real)
    requires 0.0 <= minutes < 60.0 && degrees <= 90
    ensures var x := (degrees as real + minutes / 60.0) * 10000000.0;
      && (RoundHalfAway(x) <= 900000000 <==> degrees < 90 || minutes < 0.000003)
      && RoundHalfAway(x) >= 0 && RoundHalfAway(-x) == -RoundHalfAway(x)
      && (-(degrees as real + minutes / 60.0)) * 10000000.0 == -x
  {
    var x := (degrees as real + minutes / 60.0) * 10000000.0;
    assert x == degrees as real * 10000000.0 + minutes * 10000000.0 / 60.0;
  }

  /** `9030.00` north is accepted, and means ninety and a half degrees. */
  lemma LatitudePastThePole(lib: NumericLib, value: Bytes)
    requires value != [] && lib.toDouble(value) == Some(9030.0)
    ensures ParseCoordinate(lib, value, [NORTH], false) == Some(905000000)
  {
    CoordinateMeaning(lib, value, NORTH, false, 90, 30.0);
  }

  /** Accepted coordinates reach at most 91 and 181 degrees: minutes are bounded apart from the degrees. */
  lemma CoordinateBounded(lib: NumericLib, value: Bytes, hemisphere: Bytes, longitude: bool)
    ensures var c := ParseCoordinate(lib, value, hemisphere, longitude);
      c.Some? ==>
        var limit := (MaxDegrees(longitude) + 1) * 10000000;
        && -limit <= c.value <= limit
        && (ToUpper(hemisphere[0]) == NORTH || ToUpper(hemisphere[0]) == EAST ==> c.value >= 0)
        && (ToUpper(hemisphere[0]) == SOUTH || ToUpper(hemisphere[0]) == WEST ==> c.value <= 0)
  {
    var c := ParseCoordinate(lib, value, hemisphere, longitude);
    if c.Some? {
      var raw := ParseDouble(lib, value).value;
      var degrees := (raw / 100.0).Floor;
      var minutes := raw - degrees as real * 100.0;
      CoordinateRounds(degrees, minutes, MaxDegrees(longitude), 1.0);
      CoordinateRounds(degrees, minutes, MaxDegrees(longitude), -1.0);
    }
  }

  // ---- sentences --------------------------------------------------------

  function FixTypeFromGgaQuality(quality: int): uint8 {
    if quality == 0 then NAV_GNSS_FIX_NONE
    else if quality == 4 then NAV_GNSS_FIX_RTK_FIXED
    else if quality == 5 then NAV_GNSS_FIX_RTK_FLOAT
    else NAV_GNSS_FIX_3D
  }

  /** Both coordinates, from four fields; they may be empty only in a sample without a fix. */
  function ParseLatLon(lib: NumericLib, f: seq<Bytes>, valid: bool): Option<(int32, int32)>
    requires |f| == 4
  {
    var lat := if valid then ParseCoordinate(lib, f[0], f[1], false) else ParseOptionalCoordinate(lib, f[0], f[1], false);
    var lon := if valid then ParseCoordinate(lib, f[2], f[3], true) else ParseOptionalCoordinate(lib, f[2], f[3], true);
    if lat.None? || lon.None? then None else Some((lat.value, lon.value))
  }

  function ParseGga(lib: NumericLib, f: seq<Bytes>): NmeaResult {
    if |f| < 10 then MalformedSentence
    else
      var quality := ParseLong(lib, f[6], 0, 99);
      var satellites := ParseLong(lib, f[7], 0, 255);
      var hdop := ParseOptionalDouble(lib, f[8]);
      var altitude := ParseOptionalDouble(lib, f[9]);
      if quality.None? || satellites.None? || hdop.None? || altitude.None? then MalformedSentence
      else
        var hdopCenti := RoundToUint16(hdop.value * 100.0);
        var latLon := ParseLatLon(lib, f[2..6], quality.value != 0);
        var altMm := RoundToInt32(altitude.value * 1000.0);
        if hdopCenti.None? || latLon.None? || altMm.None? then MalformedSentence
        else
          SampleReady(ZERO_SAMPLE.(
            fixType := FixTypeFromGgaQuality(quality.value),
            valid := quality.value != 0,
            satellites := satellites.value,
            hdopCenti := hdopCenti.value,
            position := Position(latLon.value.0, latLon.value.1, altMm.value)))
  }

  const ACTIVE: bv8 := 0x41
  const VOID: bv8 := 0x56

  function ParseRmc(lib: NumericLib, f: seq<Bytes>): NmeaResult {
    if |f| < 7 || |f[2]| != 1 then MalformedSentence
    else
      var status := ToUpper(f[2][0]);
      if status != ACTIVE && status != VOID then MalformedSentence
      else
        var latLon := ParseLatLon(lib, f[3..7], status == ACTIVE);
        if latLon.None? then MalformedSentence
        else
          SampleReady(ZERO_SAMPLE.(
            fixType := if status == ACTIVE then NAV_GNSS_FIX_3D else NAV_GNSS_FIX_NONE,
            valid := status == ACTIVE,
            position := Position(latLon.value.0, latLon.value.1, 0)))
  }

  const GPGGA: Bytes := [0x47, 0x50, 0x47, 0x47, 0x41]
  const GNGGA: Bytes := [0x47, 0x4e, 0x47, 0x47, 0x41]
  const GPRMC: Bytes := [0x47, 0x50, 0x52, 0x4d, 0x43]
  const GNRMC: Bytes := [0x47, 0x4e, 0x52, 0x4d, 0x43]

  function ParseFields(lib: NumericLib, f: seq<Bytes>): NmeaResult
    requires f != []
  {
    if |f[0]| != 5 then MalformedSentence
    else if f[0] == GPGGA || f[0] == GNGGA then ParseGga(lib, f)
    else if f[0] == GPRMC || f[0] == GNRMC then ParseRmc(lib, f)
    else UnsupportedSentence
  }

  function ParsePayload(lib: NumericLib, payload: Bytes): NmeaResult {
    if payload == [] || |payload| >= NAV_NMEA_MAX_SENTENCE_LEN then MalformedSentence
    else ParseFields(lib, Fields(payload, NAV_NMEA_MAX_FIELDS))
  }

  /** Where the checksum starts: the first star, unless the string ends before it. */
  function StarOf(text: Bytes): (star: Option<nat>)
    ensures star.Some? ==> star.value < |text| && text[star.value] == STAR
  {
    var star := IndexOf(text, STAR);
    if star == |text| || IndexOf(text, NUL) < star then None else Some(star)
  }

  /** A collected sentence, between the dollar sign and the line end. */
  function ParseSentence(lib: NumericLib, text: Bytes): NmeaResult {
    if StarOf(text).None? then MalformedSentence
    else
      var star := StarOf(text).value;
      if At(text, star + 1) == NUL || At(text, star + 2) == NUL || At(text, star + 3) != NUL then MalformedSentence
      else
        var high, low := HexValue(At(text, star + 1)), HexValue(At(text, star + 2));
        if high.None? || low.None? then MalformedSentence
        else if Checksum(text[..star]) != HexByte(high.value, low.value) then ChecksumError
        else ParsePayload(lib, text[..star])
  }

  lemma LatLonBounded(lib: NumericLib, f: seq<Bytes>, valid: bool)
    requires |f| == 4
    ensures var r := ParseLatLon(lib, f, valid);
      r.Some? ==> -910000000 <= r.value.0 <= 910000000 && -1810000000 <= r.value.1 <= 1810000000
  {
    CoordinateBounded(lib, f[0], f[1], false);
    CoordinateBounded(lib, f[2], f[3], true);
  }

  /** A sample is a position of at most 91 and 181 degrees, valid exactly when it is usable for navigation. */
  predicate Sane(sample: GnssSample) {
    && -910000000 <= sample.position.latE7 <= 910000000
    && -1810000000 <= sample.position.lonE7 <= 1810000000
    && (sample.valid <==> SampleIsUsable(sample))
    && (!sample.valid ==> sample.fixType == NAV_GNSS_FIX_NONE)
  }

  lemma GgaIsSane(lib: NumericLib, f: seq<Bytes>)
    ensures ParseGga(lib, f).SampleReady? ==> Sane(ParseGga(lib, f).sample)
  {
    if ParseGga(lib, f).SampleReady? {
      LatLonBounded(lib, f[2..6], ParseGga(lib, f).sample.valid);
    }
  }

  lemma RmcIsSane(lib: NumericLib, f: seq<Bytes>)
    ensures ParseRmc(lib, f).SampleReady? ==> Sane(ParseRmc(lib, f).sample)
  {
    if ParseRmc(lib, f).SampleReady? {
      LatLonBounded(lib, f[3..7], ParseRmc(lib, f).sample.valid);
    }
  }

  lemma FieldsAreSane(lib: NumericLib, f: seq<Bytes>)
    requires f != []
    ensures ParseFields(lib, f).SampleReady? ==>
      Sane(ParseFields(lib, f).sample) && f[0] in {GPGGA, GNGGA, GPRMC, GNRMC}
  {
    GgaIsSane(lib, f);
    RmcIsSane(lib, f);
  }

  /** Every sample read is sane and came from one of the four known sentences. */
  lemma SamplesAreSane(lib: NumericLib, payload: Bytes)
    ensures ParsePayload(lib, payload).SampleReady? ==>
      && Sane(ParsePayload(lib, payload).sample)
      && Fields(payload, NAV_NMEA_MAX_FIELDS)[0] in {GPGGA, GNGGA, GPRMC, GNRMC}
  {
    FieldsAreSane(lib, Fields(payload, NAV_NMEA_MAX_FIELDS));
  }

  // ---- the stream -------------------------------------------------------

  /** The reader between bytes: what it has collected, and whether it is inside a sentence. */
  datatype Reader = Reader(text: Bytes, inSentence: bool)

  predicate HasRoom(r: Reader) {
    |r.text| < NAV_NMEA_MAX_SENTENCE_LEN
  }

  function Pushed(lib: NumericLib, r: Reader, b: bv8): (Reader, NmeaResult) {
    if b == DOLLAR then (Reader([], true), NoResult)
    else if !r.inSentence then (r, NoResult)
    else if b == CR || b == LF then
      (r.(inSentence := false), if r.text == [] then NoResult else ParseSentence(lib, r.text))
    else if |r.text| + 1 >= NAV_NMEA_MAX_SENTENCE_LEN then (Reader([], false), SentenceOverflow)
    else (r.(text := r.text + [b]), NoResult)
  }

  function After(lib: NumericLib, r: Reader, bytes: Bytes): Reader
    decreases |bytes|
  {
    if bytes == [] then r else After(lib, Pushed(lib, r, bytes[0]).0, bytes[1..])
  }

  /** Everything the reader reports while reading `bytes`. */
  function Reports(lib: NumericLib, r: Reader, bytes: Bytes): seq<NmeaResult>
    decreases |bytes|
  {
    if bytes == [] then []
    else
      var (next, result) := Pushed(lib, r, bytes[0]);
      (if result.NoResult? then [] else [result]) + Reports(lib, next, bytes[1..])
  }

  /** The collected text never exceeds 95 bytes, whatever is read. */
  lemma {:induction false} RoomIsKept(lib: NumericLib, r: Reader, bytes: Bytes)
    requires HasRoom(r)
    ensures HasRoom(After(lib, r, bytes))
    decreases |bytes|
  {
    if bytes != [] {
      RoomIsKept(lib, Pushed(lib, r, bytes[0]).0, bytes[1..]);
    }
  }

  lemma {:induction false} ReadInTwo(lib: NumericLib, r: Reader, a: Bytes, b: Bytes)
    ensures After(lib, r, a + b) == After(lib, After(lib, r, a), b)
    ensures Reports(lib, r, a + b) == Reports(lib, r, a) + Reports(lib, After(lib, r, a), b)
    decreases |a|
  {
    if a == [] {
      assert a + b == b;
    } else {
      ReadInTwo(lib, Pushed(lib, r, a[0]).0, a[1..], b);
      assert (a + b)[1..] == a[1..] + b;
    }
  }

  predicate Plain(b: bv8) {
    b != DOLLAR && b != STAR && b != CR && b != LF && b != NUL
  }

  /** A payload the reader can take whole. */
  predicate Sendable(payload: Bytes) {
    |payload| <= 92 && forall i :: 0 <= i < |payload| ==> Plain(payload[i])
  }

  datatype Sentence = Sentence(payload: Bytes, high: bv8, low: bv8)

  predicate WellFormed(s: Sentence) {
    Sendable(s.payload) && HexValue(s.high).Some? && HexValue(s.low).Some?
  }

  predicate ChecksumAgrees(s: Sentence)
    requires WellFormed(s)
  {
    Checksum(s.payload) == HexByte(HexValue(s.high).value, HexValue(s.low).value)
  }

  /** The sentence on the wire, up to and with the carriage return. */
  function Wire(s: Sentence): Bytes {
    [DOLLAR] + Body(s) + [CR]
  }

  function Body(s: Sentence): Bytes {
    s.payload + [STAR, s.high, s.low]
  }

  /** What the sentence means on its own. */
  function Meaning(lib: NumericLib, s: Sentence): NmeaResult
    requires WellFormed(s)
  {
    if ChecksumAgrees(s) then ParsePayload(lib, s.payload)
    else ChecksumError
  }

  lemma HexIsVisible(c: bv8)
    requires HexValue(c).Some?
    ensures Plain(c)
  {
  }

  lemma BodyShape(s: Sentence)
    requires WellFormed(s)
    ensures var text, star := Body(s), |s.payload|;
      && IndexOf(text, STAR) == star < |text| == IndexOf(text, NUL) && text[..star] == s.payload
      && At(text, star + 1) == s.high != NUL && At(text, star + 2) == s.low != NUL && At(text, star + 3) == NUL
      && forall i :: 0 <= i < |text| ==> Plain(text[i]) || text[i] == STAR
  {
    HexIsVisible(s.high);
    HexIsVisible(s.low);
    IndexFromIs(Body(s), STAR, 0, |s.payload|);
    IndexFromIs(Body(s), NUL, 0, |Body(s)|);
  }

  lemma BodyParses(lib: NumericLib, s: Sentence)
    requires WellFormed(s)
    ensures ParseSentence(lib, Body(s)) == Meaning(lib, s) != NoResult
  {
    BodyShape(s);
  }

  lemma {:induction false} CollectsQuietly(lib: NumericLib, r: Reader, bytes: Bytes)
    requires r.inSentence && |r.text| + |bytes| < NAV_NMEA_MAX_SENTENCE_LEN
    requires forall i :: 0 <= i < |bytes| ==> Plain(bytes[i]) || bytes[i] == STAR
    ensures After(lib, r, bytes) == Reader(r.text + bytes, true)
    ensures Reports(lib, r, bytes) == []
    decreases |bytes|
  {
    if bytes != [] {
      CollectsQuietly(lib, Reader(r.text + [bytes[0]], true), bytes[1..]);
      assert r.text + [bytes[0]] + bytes[1..] == r.text + bytes;
    } else {
      assert r.text + bytes == r.text;
    }
  }

  lemma LineEndReports(lib: NumericLib, text: Bytes)
    requires text != [] && ParseSentence(lib, text) != NoResult
    ensures Pushed(lib, Reader(text, true), CR) == (Reader(text, false), ParseSentence(lib, text))
    ensures After(lib, Reader(text, true), [CR]) == Reader(text, false)
    ensures Reports(lib, Reader(text, true), [CR]) == [ParseSentence(lib, text)]
  {
    assert [CR][1..] == [];
  }

  lemma DollarStarts(lib: NumericLib, r: Reader)
    ensures After(lib, r, [DOLLAR]) == Reader([], true) && Reports(lib, r, [DOLLAR]) == []
  {
    assert [DOLLAR][1..] == [];
  }

  lemma CollectsSentence(lib: NumericLib, r: Reader, s: Sentence)
    requires WellFormed(s)
    ensures After(lib, r, [DOLLAR] + Body(s)) == Reader(Body(s), true)
    ensures Reports(lib, r, [DOLLAR] + Body(s)) == []
  {
    BodyShape(s);
    DollarStarts(lib, r);
    CollectsQuietly(lib, Reader([], true), Body(s));
    ReadInTwo(lib, r, [DOLLAR], Body(s));
  }

  /** Reading a sentence byte by byte, from any state, reports exactly what the sentence means, on its last byte. */
  lemma StreamingIsParsing(lib: NumericLib, r: Reader, s: Sentence)
    requires WellFormed(s)
    ensures Reports(lib, r, [DOLLAR] + Body(s)) == []
    ensures Pushed(lib, After(lib, r, [DOLLAR] + Body(s)), CR) == (Reader(Body(s), false), Meaning(lib, s))
    ensures After(lib, r, Wire(s)) == Reader(Body(s), false) && Reports(lib, r, Wire(s)) == [Meaning(lib, s)]
  {
    CollectsSentence(lib, r, s);
    BodyParses(lib, s);
    LineEndReports(lib, Body(s));
    ReadInTwo(lib, r, [DOLLAR] + Body(s), [CR]);
  }

  /** One payload byte altered in transit is always caught. */
  lemma AlteredByteIsCaught(lib: NumericLib, r: Reader, s: Sentence, i: nat, b: bv8)
    requires WellFormed(s) && ChecksumAgrees(s)
    requires i < |s.payload| && Plain(b) && b != s.payload[i]
    ensures Reports(lib, r, Wire(s.(payload := s.payload[i := b]))) == [ChecksumError]
  {
    ChecksumOfChange(s.payload, i, b);
    XorCancel(Checksum(s.payload), s.payload[i], b);
    StreamingIsParsing(lib, r, s.(payload := s.payload[i := b]));
  }

  /** A line on the wire ends in carriage return and line feed. */
  function Lines(ss: seq<Sentence>): Bytes {
    if ss == [] then [] else Wire(ss[0]) + [LF] + Lines(ss[1..])
  }

  lemma LineFeedIgnored(lib: NumericLib, text: Bytes, rest: Bytes)
    ensures Reports(lib, Reader(text, false), [LF] + rest) == Reports(lib, Reader(text, false), rest)
  {
    assert ([LF] + rest)[1..] == rest;
  }

  lemma NextLineReported(lib: NumericLib, r: Reader, s: Sentence, rest: Bytes)
    requires WellFormed(s)
    ensures Reports(lib, r, Wire(s) + [LF] + rest) == [Meaning(lib, s)] + Reports(lib, Reader(Body(s), false), rest)
  {
    StreamingIsParsing(lib, r, s);
    LineFeedIgnored(lib, Body(s), rest);
    ReadInTwo(lib, r, Wire(s), [LF] + rest);
    assert Wire(s) + [LF] + rest == Wire(s) + ([LF] + rest);
  }

  /** From any state, a stream of sentences is reported one for one and in order. */
  lemma {:induction false} StreamReportsAll(lib: NumericLib, r: Reader, ss: seq<Sentence>)
    requires forall i :: 0 <= i < |ss| ==> WellFormed(ss[i])
    ensures |Reports(lib, r, Lines(ss))| == |ss|
    ensures forall i :: 0 <= i < |ss| ==> Reports(lib, r, Lines(ss))[i] == Meaning(lib, ss[i])
    decreases |ss|
  {
    if ss != [] {
      NextLineReported(lib, r, ss[0], Lines(ss[1..]));
      StreamReportsAll(lib, Reader(Body(ss[0]), false), ss[1..]);
    }
  }

  // ---- the parser object ------------------------------------------------

  /** The string a buffer holds from `start` up to its terminator. */
  function CString(buffer: Bytes, start: nat): Bytes
    requires start <= |buffer|
  {
    buffer[start..IndexFrom(buffer, NUL, start)]
  }

  /** The fields a cut buffer holds at `starts`. */
  predicate Holds(buffer: Bytes, starts: seq<nat>, fields: seq<Bytes>) {
    && |starts| == |fields|
    && forall k :: 0 <= k < |fields| ==> starts[k] <= |buffer| && CString(buffer, starts[k]) == fields[k]
  }

  lemma CStringIs(buffer: Bytes, start: nat, s: Bytes)
    requires start + |s| < |buffer| && buffer[start..start + |s|] == s && NUL !in s && buffer[start + |s|] == NUL
    ensures CString(buffer, start) == s
  {
    forall k | start <= k < start + |s|
      ensures buffer[k] != NUL
    {
      assert buffer[k] == s[k - start];
    }
    IndexFromIs(buffer, NUL, start, start + |s|);
  }

  /** Field `s` stands in the buffer at `start`, terminated before `limit`. */
  predicate Stands(work: Bytes, start: nat, s: Bytes, limit: nat) {
    start + |s| < limit <= |work| && work[start..start + |s|] == s && NUL !in s && work[start + |s|] == NUL
  }

  /** The payload from `last` on is still uncut in the buffer, and has no comma before `cursor`. */
  predicate Uncut(work: Bytes, p: Bytes, last: nat, cursor: nat) {
    && last <= cursor <= |p| < |work|
    && (forall i :: last <= i < |p| ==> work[i] == p[i]) && work[|p|] == NUL
    && forall i :: last <= i < cursor ==> p[i] != COMMA
  }

  predicate AllStand(work: Bytes, starts: seq<nat>, fields: seq<Bytes>, limit: nat) {
    |starts| == |fields| && forall k :: 0 <= k < |fields| ==> Stands(work, starts[k], fields[k], limit)
  }

  lemma StandsStill(work: Bytes, start: nat, s: Bytes, limit: nat, i: nat, b: bv8)
    requires Stands(work, start, s, limit) && limit <= i < |work|
    ensures Stands(work[i := b], start, s, i + 1)
  {
    assert work[i := b][start..start + |s|] == work[start..start + |s|];
  }

  lemma UncutAfter(work: Bytes, p: Bytes, last: nat, cursor: nat)
    requires Uncut(work, p, last, cursor) && cursor < |p| && NUL !in p
    ensures Uncut(work[cursor := NUL], p, cursor + 1, cursor + 1)
    ensures Stands(work[cursor := NUL], last, p[last..cursor], cursor + 1)
  {
    assert work[cursor := NUL][last..cursor] == p[last..cursor];
  }

  lemma AllStandAfter(work: Bytes, starts: seq<nat>, fields: seq<Bytes>, last: nat, cursor: nat, field: Bytes)
    requires AllStand(work, starts, fields, last) && last <= cursor < |work|
    requires Stands(work[cursor := NUL], last, field, cursor + 1)
    ensures AllStand(work[cursor := NUL], starts + [last], fields + [field], cursor + 1)
  {
    forall k | 0 <= k < |fields|
      ensures Stands(work[cursor := NUL], starts[k], fields[k], cursor + 1)
    {
      StandsStill(work, starts[k], fields[k], last, cursor, NUL);
    }
  }

  lemma LastStands(work: Bytes, p: Bytes, last: nat, cursor: nat)
    requires Uncut(work, p, last, cursor) && NUL !in p
    ensures Stands(work, last, p[last..], |p| + 1)
  {
    assert work[last..|p|] == p[last..];
  }

  lemma StandingHolds(work: Bytes, starts: seq<nat>, fields: seq<Bytes>, limit: nat)
    requires AllStand(work, starts, fields, limit)
    ensures Holds(work, starts, fields)
  {
    forall k | 0 <= k < |fields|
      ensures starts[k] <= |work| && CString(work, starts[k]) == fields[k]
    {
      CStringIs(work, starts[k], fields[k]);
    }
  }

  lemma StandsLonger(work: Bytes, starts: seq<nat>, fields: seq<Bytes>, limit: nat, longer: nat)
    requires AllStand(work, starts, fields, limit) && limit <= longer <= |work|
    ensures AllStand(work, starts, fields, longer)
  {
  }

  /** How far the cutting has come: the closed fields, and the field from `last` on read up to `cursor`. */
  datatype Progress = Progress(starts: seq<nat>, fields: seq<Bytes>, last: nat, cursor: nat)

  predicate Cutting(work: Bytes, p: Bytes, c: Progress) {
    Uncut(work, p, c.last, c.cursor) && AllStand(work, c.starts, c.fields, c.last)
  }

  /** The closed fields are the first of the payload's fields. */
  predicate FieldsSoFar(p: Bytes, room: nat, c: Progress) {
    && |c.fields| < room && c.last <= |p|
    && Fields(p, room) == c.fields + FieldsFrom(p, c.last, room - |c.fields|)
  }

  lemma Regroup<T>(all: seq<T>, a: seq<T>, b: seq<T>, x: T, c: seq<T>)
    requires all == a + b && b == [x] + c
    ensures all == a + [x] + c
  {
  }

  function Cut(c: Progress, p: Bytes): Progress
    requires c.last <= c.cursor <= |p|
  {
    Progress(c.starts + [c.last], c.fields + [p[c.last..c.cursor]], c.cursor + 1, c.cursor + 1)
  }

  lemma FieldsAdvance(p: Bytes, room: nat, c: Progress)
    requires FieldsSoFar(p, room, c) && c.last <= c.cursor < |p| && p[c.cursor] == COMMA && |c.fields| + 1 < room
    requires forall i :: c.last <= i < c.cursor ==> p[i] != COMMA
    ensures FieldsSoFar(p, room, Cut(c, p))
  {
    IndexFromIs(p, COMMA, c.last, c.cursor);
    Regroup(Fields(p, room), c.fields, FieldsFrom(p, c.last, room - |c.fields|),
            p[c.last..c.cursor], FieldsFrom(p, c.cursor + 1, room - |c.fields| - 1));
  }

  lemma CuttingCuts(work: Bytes, p: Bytes, c: Progress)
    requires Cutting(work, p, c) && c.cursor < |p| && NUL !in p
    ensures Cutting(work[c.cursor := NUL], p, Cut(c, p))
  {
    UncutAfter(work, p, c.last, c.cursor);
    AllStandAfter(work, c.starts, c.fields, c.last, c.cursor, p[c.last..c.cursor]);
  }

  lemma CuttingStarts(work: Bytes, p: Bytes)
    requires |p| < |work| && work[..|p|] == p && work[|p|] == NUL
    ensures Cutting(work, p, Progress([], [], 0, 0))
  {
    forall i | 0 <= i < |p|
      ensures work[i] == p[i]
    {
      assert work[..|p|][i] == p[i];
    }
  }

  lemma CuttingReads(work: Bytes, p: Bytes, c: Progress)
    requires Cutting(work, p, c) && NUL !in p
    ensures work[c.cursor] == At(p, c.cursor) && (work[c.cursor] == NUL <==> c.cursor == |p|)
  {
  }

  lemma CuttingSkips(work: Bytes, p: Bytes, c: Progress)
    requires Cutting(work, p, c) && c.cursor < |p| && p[c.cursor] != COMMA
    ensures Cutting(work, p, c.(cursor := c.cursor + 1))
  {
  }

  lemma CuttingEnds(work: Bytes, p: Bytes, room: nat, c: Progress)
    requires Cutting(work, p, c) && FieldsSoFar(p, room, c) && NUL !in p && (c.cursor == |p| || |c.fields| + 1 == room)
    ensures Holds(work, c.starts + [c.last], Fields(p, room))
  {
    if c.cursor == |p| {
      IndexFromIs(p, COMMA, c.last, c.cursor);
    }
    StandsLonger(work, c.starts, c.fields, c.last, |p| + 1);
    LastStands(work, p, c.last, c.cursor);
    StandingHolds(work, c.starts + [c.last], c.fields + [p[c.last..]], |p| + 1);
  }

  /** Cuts the payload into fields in place, replacing commas by terminators, and returns where each field starts. */
  method SplitFields(work: array<bv8>, ghost payload: Bytes, room: nat) returns (starts: seq<nat>)
    requires |payload| < work.Length && work[..|payload|] == payload && work[|payload|] == NUL && NUL !in payload
    requires room >= 1
    modifies work
    ensures Holds(work[..], starts, Fields(payload, room))
  {
    starts := [0];
    var cursor := 0;
    ghost var c := Progress([], [], 0, 0);
    CuttingStarts(work[..], payload);
    while work[cursor] != NUL && |starts| < room
      invariant Cutting(work[..], payload, c) && FieldsSoFar(payload, room, c)
      invariant cursor == c.cursor && starts == c.starts + [c.last]
      decreases |payload| - cursor
    {
      CuttingReads(work[..], payload, c);
      if work[cursor] == COMMA {
        FieldsAdvance(payload, room, c);
        CuttingCuts(work[..], payload, c);
        ghost var cut := work[..][cursor := NUL];
        work[cursor] := NUL;
        assert work[..] == cut;
        starts := starts + [cursor + 1];
        c := Cut(c, payload);
      } else {
        CuttingSkips(work[..], payload, c);
        c := c.(cursor := cursor + 1);
      }
      cursor := cursor + 1;
    }
    CuttingReads(work[..], payload, c);
    CuttingEnds(work[..], payload, room, c);
  }

  /** Cuts a terminated payload into its fields and reads each as a string. */
  method FieldStrings(work: array<bv8>, ghost payload: Bytes, room: nat) returns (fields: seq<Bytes>)
    requires |payload| < work.Length && work[..|payload|] == payload && work[|payload|] == NUL && NUL !in payload
    requires room >= 1
    modifies work
    ensures fields == Fields(payload, room)
  {
    var starts := SplitFields(work, payload, room);
    ghost var expected := Fields(payload, room);
    fields := [];
    for k := 0 to |starts|
      invariant fields == expected[..k]
    {
      fields := fields + [CString(work[..], starts[k])];
    }
  }

  /** The parser object: bytes collected in a fixed buffer, cut up in place when a line ends. */
  class Parser {
    const sentence: array<bv8>
    var length: nat
    var inSentence: bool

    ghost predicate Valid()
      reads this
    {
      sentence.Length == NAV_NMEA_MAX_SENTENCE_LEN && length < NAV_NMEA_MAX_SENTENCE_LEN
    }

    ghost function View(): Reader
      reads this, sentence
      requires Valid()
    {
      Reader(sentence[..length], inSentence)
    }

    constructor ()
      ensures Valid() && View() == Reader([], false) && fresh(sentence)
    {
      sentence := new bv8[NAV_NMEA_MAX_SENTENCE_LEN](_ => NUL);
      length := 0;
      inSentence := false;
    }

    /** Takes one byte and reports what it completed, if anything. */
    method Push(lib: NumericLib, b: bv8) returns (result: NmeaResult)
      requires Valid()
      modifies this`length, this`inSentence, sentence
      ensures Valid()
      ensures (View(), result) == Pushed(lib, old(View()), b)
    {
      if b == DOLLAR {
        length := 0;
        inSentence := true;
        return NoResult;
      }
      if !inSentence {
        return NoResult;
      }
      if b == CR || b == LF {
        inSentence := false;
        if length == 0 {
          return NoResult;
        }
        result := ReadSentence(lib);
        return;
      }
      if length + 1 >= NAV_NMEA_MAX_SENTENCE_LEN {
        length := 0;
        inSentence := false;
        return SentenceOverflow;
      }
      sentence[length] := b;
      length := length + 1;
      assert sentence[..length] == old(sentence[..length]) + [b];
      result := NoResult;
    }

    /** Terminates the collected sentence, finds its checksum and checks it. */
    method ReadSentence(lib: NumericLib) returns (result: NmeaResult)
      requires Valid()
      modifies sentence
      ensures sentence[..length] == old(sentence[..length])
      ensures result == ParseSentence(lib, old(sentence[..length]))
    {
      ghost var text := sentence[..length];
      sentence[length] := NUL;
      assert sentence[..length] == text;
      var star := FindStar();
      if sentence[star] == NUL || sentence[star + 1] == NUL || sentence[star + 2] == NUL || sentence[star + 3] != NUL {
        return MalformedSentence;
      }
      var high, low := HexValue(sentence[star + 1]), HexValue(sentence[star + 2]);
      if high.None? || low.None? {
        return MalformedSentence;
      }
      assert sentence[..star] == text[..star];
      var checksum := ChecksumTo(star);
      if checksum != HexByte(high.value, low.value) {
        return ChecksumError;
      }
      result := ReadPayload(lib, star);
    }

    method ChecksumTo(star: nat) returns (checksum: bv8)
      requires star <= sentence.Length
      ensures checksum == Checksum(sentence[..star])
    {
      checksum := 0;
      for cursor := 0 to star
        invariant checksum == Checksum(sentence[..cursor])
      {
        assert sentence[..cursor + 1][..cursor] == sentence[..cursor];
        checksum := checksum ^ sentence[cursor];
      }
    }

    /** The first star of the terminated sentence, or where the string ends. */
    method FindStar() returns (star: nat)
      requires Valid() && sentence[length] == NUL
      ensures star <= length
      ensures StarOf(sentence[..length]) == if sentence[star] == NUL then None else Some(star)
    {
      star := 0;
      while sentence[star] != STAR && sentence[star] != NUL
        invariant star <= length && forall k :: 0 <= k < star ==> sentence[k] != STAR && sentence[k] != NUL
        decreases length - star
      {
        star := star + 1;
      }
      if sentence[star] == STAR {
        IndexFromIs(sentence[..length], STAR, 0, star);
      } else {
        IndexFromIs(sentence[..length], NUL, 0, star);
      }
    }

    /** Copies the payload, cuts it into fields and reads them. */
    method ReadPayload(lib: NumericLib, count: nat) returns (result: NmeaResult)
      requires Valid() && count <= length && NUL !in sentence[..count]
      ensures result == ParsePayload(lib, sentence[..count])
    {
      if count == 0 {
        return MalformedSentence;
      }
      var work := new bv8[NAV_NMEA_MAX_SENTENCE_LEN](_ => NUL);
      for i := 0 to count
        invariant work[..i] == sentence[..i] && work[count] == NUL
      {
        work[i] := sentence[i];
      }
      var fields := FieldStrings(work, sentence[..count], NAV_NMEA_MAX_FIELDS);
      result := ParseFields(lib, fields);
    }
  }
}
