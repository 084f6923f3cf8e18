/** The JSON lines a node speaks over its serial port: truncating writers, and the key scanner that reads lines back. */
module SerialJson {

  const NUL: char := '\0'
  const QUOTE: char := '"'
  const BACKSLASH: char := '\\'

  function Min(a: nat, b: nat): nat {
    if a <= b then a else b
  }

  // ---- text -------------------------------------------------------------

  function HexDigit(d: nat): char
    requires d < 16
  {
    "0123456789abcdef"[d]
  }

  predicate IsControl(c: char) {
    c < ' '
  }

  /** The six-character escape of a control character: its code in four hexadecimal digits. */
  function ControlEscape(c: char): (e: string)
    requires IsControl(c)
    ensures |e| == 6
  {
    [BACKSLASH, 'u', '0', '0', HexDigit(c as int / 16), HexDigit(c as int % 16)]
  }

  /** What a character becomes inside a JSON string. */
  function EscapedChar(c: char): string {
    if c == QUOTE || c == BACKSLASH then [BACKSLASH, c]
    else if IsControl(c) then ControlEscape(c)
    else [c]
  }

  function Escaped(t: string): string {
    if t == "" then "" else EscapedChar(t[0]) + Escaped(t[1..])
  }

  function Quoted(t: string): string {
    [QUOTE] + Escaped(t) + [QUOTE]
  }

  /** What reading an escaped character back yields: control characters keep only the text of their escape. */
  function LossyChar(c: char): string {
    if IsControl(c) then ControlEscape(c)[1..] else [c]
  }

  function Lossy(t: string): string {
    if t == "" then "" else LossyChar(t[0]) + Lossy(t[1..])
  }

  predicate ControlFree(t: string) {
    forall i :: 0 <= i < |t| ==> !IsControl(t[i])
  }

  lemma {:induction false} LossyKeepsText(t: string)
    requires ControlFree(t)
    ensures Lossy(t) == t
  {
    if t != "" {
      LossyKeepsText(t[1..]);
    }
  }

  lemma Regrouped(a: string, b: string, c: string)
    ensures a + (b + c) == a + b + c
  {
  }

  lemma {:induction false} EscapedLast(t: string, c: char)
    ensures Escaped(t + [c]) == Escaped(t) + EscapedChar(c)
  {
    if t == "" {
      assert (t + [c])[1..] == "";
    } else {
      EscapedLast(t[1..], c);
      assert (t + [c])[1..] == t[1..] + [c];
      Regrouped(EscapedChar(t[0]), Escaped(t[1..]), EscapedChar(c));
    }
  }

  // ---- truncating output ------------------------------------------------

  /** The buffer window of `cap` characters at `base` holds as much of `s` as fits, terminated. */
  predicate Holds(buffer: seq<char>, base: nat, cap: nat, s: string)
    requires base + cap <= |buffer|
  {
    cap > 0 ==>
      var kept := Min(|s|, cap - 1);
      buffer[base..base + kept] == s[..kept] && buffer[base + kept] == NUL
  }

  predicate SameOutside(before: seq<char>, after: seq<char>, base: nat, cap: nat) {
    && |before| == |after| && base + cap <= |before|
    && before[..base] == after[..base] && before[base + cap..] == after[base + cap..]
  }

  /** One `snprintf` into a window: as much as fits, terminated, and nothing if there is no room at all. */
  method Format(buf: array<char>, base: nat, room: nat, chunk: string)
    requires base + room <= buf.Length
    modifies buf
    ensures SameOutside(old(buf[..]), buf[..], base, room)
    ensures Holds(buf[..], base, room, chunk)
  {
    if room == 0 {
      return;
    }
    var kept := Min(|chunk|, room - 1);
    for i := 0 to kept
      invariant buf[base..base + i] == chunk[..i]
      invariant buf[..base] == old(buf[..base]) && buf[base + room..] == old(buf[base + room..])
    {
      buf[base + i] := chunk[i];
    }
    buf[base + kept] := NUL;
  }

  /** `chunk` was formatted into what the window has left after `s`, and nothing else changed. */
  predicate Formatted(before: seq<char>, after: seq<char>, base: nat, cap: nat, s: string, chunk: string)
    requires base + cap <= |before|
  {
    var off := Min(|s|, cap);
    SameOutside(before, after, base + off, cap - off) && Holds(after, base + off, cap - off, chunk)
  }

  lemma OuterUnchanged(before: seq<char>, after: seq<char>, base: nat, cap: nat, off: nat)
    requires off <= cap && SameOutside(before, after, base + off, cap - off)
    ensures SameOutside(before, after, base, cap) && after[base..base + off] == before[base..base + off]
  {
    assert before[..base] == before[..base + off][..base];
    assert after[..base] == after[..base + off][..base];
    assert before[base..base + off] == before[..base + off][base..];
    assert after[base..base + off] == after[..base + off][base..];
  }

  lemma AppendFits(before: seq<char>, after: seq<char>, base: nat, cap: nat, s: string, chunk: string)
    requires base + cap <= |before| && |s| < cap && (s == "" || Holds(before, base, cap, s))
    requires Formatted(before, after, base, cap, s, chunk)
    ensures Holds(after, base, cap, s + chunk)
  {
    var off, kept := |s|, Min(|chunk|, cap - |s| - 1);
    OuterUnchanged(before, after, base, cap, off);
    assert after[base..base + off] == s;
    assert after[base..base + off + kept] == after[base..base + off] + after[base + off..base + off + kept];
    assert (s + chunk)[..off + kept] == s + chunk[..kept];
  }

  lemma AppendLost(before: seq<char>, after: seq<char>, base: nat, cap: nat, s: string, chunk: string)
    requires base + cap <= |before| && 0 < cap <= |s| && Holds(before, base, cap, s)
    requires Formatted(before, after, base, cap, s, chunk)
    ensures Holds(after, base, cap, s + chunk)
  {
    assert before == before[..base + cap] + before[base + cap..];
    assert after == after[..base + cap] + after[base + cap..];
    assert (s + chunk)[..cap - 1] == s[..cap - 1];
  }

  /** What follows the text already written is written where that text ends. */
  lemma HoldsAppended(before: seq<char>, after: seq<char>, base: nat, cap: nat, s: string, chunk: string)
    requires base + cap <= |before| && (s == "" || Holds(before, base, cap, s))
    requires Formatted(before, after, base, cap, s, chunk)
    ensures SameOutside(before, after, base, cap) && Holds(after, base, cap, s + chunk)
  {
    OuterUnchanged(before, after, base, cap, Min(|s|, cap));
    if |s| < cap {
      AppendFits(before, after, base, cap, s, chunk);
    } else if cap > 0 {
      AppendLost(before, after, base, cap, s, chunk);
    }
  }

  /** The accumulating writer: continues at `used`, writes what fits, and counts the full length regardless. */
  method Append(buf: array<char>, base: nat, cap: nat, used: nat, chunk: string, ghost s: string) returns (total: nat)
    requires base + cap <= buf.Length && used == |s| && (s == "" || Holds(buf[..], base, cap, s))
    modifies buf
    ensures total == |s + chunk| && Holds(buf[..], base, cap, s + chunk)
    ensures SameOutside(old(buf[..]), buf[..], base, cap)
  {
    var off := Min(used, cap);
    Format(buf, base + off, cap - off, chunk);
    assert Formatted(old(buf[..]), buf[..], base, cap, s, chunk);
    HoldsAppended(old(buf[..]), buf[..], base, cap, s, chunk);
    total := used + |chunk|;
  }

  method AppendEscapedChar(buf: array<char>, base: nat, cap: nat, used: nat, c: char, ghost s: string)
    returns (total: nat)
    requires base + cap <= buf.Length && used == |s| && (s == "" || Holds(buf[..], base, cap, s))
    modifies buf
    ensures total == |s + EscapedChar(c)| && Holds(buf[..], base, cap, s + EscapedChar(c))
    ensures SameOutside(old(buf[..]), buf[..], base, cap)
  {
    if c == QUOTE || c == BACKSLASH {
      total := Append(buf, base, cap, used, [BACKSLASH, c], s);
    } else if c < ' ' {
      total := Append(buf, base, cap, used, ControlEscape(c), s);
    } else {
      total := Append(buf, base, cap, used, [c], s);
    }
  }

  lemma OneCharOn(written: string, t: string, p: nat, whole: string)
    requires p < |t| && written + Escaped(t[p..]) == whole
    ensures written + EscapedChar(t[p]) + Escaped(t[p + 1..]) == whole
  {
    assert t[p..][1..] == t[p + 1..];
    assert written + EscapedChar(t[p]) + Escaped(t[p + 1..]) == written + (EscapedChar(t[p]) + Escaped(t[p + 1..]));
  }

  /** Appends a quoted, escaped string one character at a time. */
  method AppendEscaped(buf: array<char>, base: nat, cap: nat, used: nat, t: string, ghost s: string)
    returns (total: nat)
    requires base + cap <= buf.Length && used == |s| && (s == "" || Holds(buf[..], base, cap, s))
    modifies buf
    ensures total == |s + Quoted(t)| && Holds(buf[..], base, cap, s + Quoted(t))
    ensures SameOutside(old(buf[..]), buf[..], base, cap)
  {
    total := Append(buf, base, cap, used, [QUOTE], s);
    ghost var written := s + [QUOTE];
    ghost var whole := written + Escaped(t);
    assert t[0..] == t;
    var p := 0;
    while p < |t|
      invariant p <= |t| && total == |written| && written != ""
      invariant Holds(buf[..], base, cap, written)
      invariant written + Escaped(t[p..]) == whole
      invariant SameOutside(old(buf[..]), buf[..], base, cap)
    {
      OneCharOn(written, t, p, whole);
      total := AppendEscapedChar(buf, base, cap, total, t[p], written);
      written := written + EscapedChar(t[p]);
      p := p + 1;
    }
    assert written == whole;
    total := Append(buf, base, cap, total, [QUOTE], whole);
    assert s + Quoted(t) == whole + [QUOTE];
  }

  // ---- records ----------------------------------------------------------

  datatype Value = Text(text: string) | Bare(raw: string)

  datatype Field = Field(key: string, value: Value)

  predicate IsKeyChar(c: char) {
    'a' <= c <= 'z' || c == '_'
  }

  predicate IsKey(key: string) {
    key != "" && forall i :: 0 <= i < |key| ==> IsKeyChar(key[i])
  }

  /** A number, or `true` or `false`. */
  predicate IsBare(raw: string) {
    raw != "" && forall i :: 0 <= i < |raw| ==> raw[i] != QUOTE && raw[i] != ':' && raw[i] != ' ' && raw[i] != '\t'
  }

  predicate WellFormed(fields: seq<Field>) {
    forall i :: 0 <= i < |fields| ==> IsKey(fields[i].key) && (fields[i].value.Bare? ==> IsBare(fields[i].value.raw))
  }

  function Shown(v: Value): string {
    match v
    case Text(t) => Quoted(t)
    case Bare(raw) => raw
  }

  function Member(f: Field): string {
    [QUOTE] + f.key + [QUOTE, ':'] + Shown(f.value)
  }

  /** The members of a flat object from here to its end, each after a separator. */
  function Tail(fields: seq<Field>, separator: char): string {
    if fields == [] then "}" else [separator] + Member(fields[0]) + Tail(fields[1..], ',')
  }

  /** A flat object with at least one member, on one line. */
  function Record(fields: seq<Field>): string
    requires fields != []
  {
    Tail(fields, '{')
  }

  function Decimal(n: nat): (d: string)
    ensures IsBare(d)
  {
    if n < 10 then ["0123456789"[n]] else Decimal(n / 10) + ["0123456789"[n % 10]]
  }

  /** A log record's members; its timestamp is a formatted number. */
  function LogFields(timestamp: string, level: string, tag: string, text: string): (fields: seq<Field>)
    requires IsBare(timestamp)
    ensures WellFormed(fields)
  {
    [Field("type", Text("log")), Field("ts", Bare(timestamp)),
     Field("level", Text(level)), Field("tag", Text(tag)), Field("text", Text(text))]
  }

  // ---- record writers ---------------------------------------------------

  /** Writing one member moves it from what is left of the record to what is written. */
  lemma MemberWritten(whole: string, written: string, f: Field, rest: seq<Field>, separator: char, lead: string)
    requires whole == written + Tail([f] + rest, separator) && lead == [separator, QUOTE] + f.key + [QUOTE, ':']
    ensures whole == written + lead + Shown(f.value) + Tail(rest, ',')
  {
    assert ([f] + rest)[1..] == rest;
    assert Tail([f] + rest, separator) == lead + Shown(f.value) + Tail(rest, ',') by {
      assert [separator] + Member(f) == lead + Shown(f.value);
    }
  }

  /** The members of a log record as the literals the writer emits between the escaped texts. */
  lemma LogLiterals()
    ensures ",\"level\":" == [',', QUOTE] + "level" + [QUOTE, ':']
    ensures ",\"tag\":" == [',', QUOTE] + "tag" + [QUOTE, ':']
    ensures ",\"text\":" == [',', QUOTE] + "text" + [QUOTE, ':']
  {
  }

  lemma LogHeadLiterals()
    ensures "{\"type\":" == ['{', QUOTE] + "type" + [QUOTE, ':']
    ensures ",\"ts\":" == [',', QUOTE] + "ts" + [QUOTE, ':']
    ensures "{\"type\":" + Quoted("log") + ",\"ts\":" == "{\"type\":\"log\",\"ts\":"
  {
    assert Escaped("log") == "log";
  }

  lemma LogText(timestamp: string, level: string, tag: string, text: string)
    requires IsBare(timestamp)
    ensures Record(LogFields(timestamp, level, tag, text))
         == "{\"type\":\"log\",\"ts\":" + timestamp + ",\"level\":" + Quoted(level)
            + ",\"tag\":" + Quoted(tag) + ",\"text\":" + Quoted(text) + "}"
  {
    var kind, ts := Field("type", Text("log")), Field("ts", Bare(timestamp));
    var c := [Field("text", Text(text))] + [];
    var b := [Field("tag", Text(tag))] + c;
    var a := [Field("level", Text(level))] + b;
    var whole := Record(LogFields(timestamp, level, tag, text));
    assert LogFields(timestamp, level, tag, text) == [kind] + ([ts] + a);
    LogLiterals();
    LogHeadText(whole, timestamp, a);
    var s := "{\"type\":\"log\",\"ts\":" + timestamp;
    MemberWritten(whole, s, Field("level", Text(level)), b, ',', ",\"level\":");
    s := s + ",\"level\":" + Quoted(level);
    MemberWritten(whole, s, Field("tag", Text(tag)), c, ',', ",\"tag\":");
    s := s + ",\"tag\":" + Quoted(tag);
    MemberWritten(whole, s, Field("text", Text(text)), [], ',', ",\"text\":");
  }

  lemma LogHeadText(whole: string, timestamp: string, rest: seq<Field>)
    requires whole == Tail([Field("type", Text("log"))] + ([Field("ts", Bare(timestamp))] + rest), '{')
    ensures whole == "{\"type\":\"log\",\"ts\":" + timestamp + Tail(rest, ',')
  {
    var ts := Field("ts", Bare(timestamp));
    LogHeadLiterals();
    MemberWritten(whole, "", Field("type", Text("log")), [ts] + rest, '{', "{\"type\":");
    MemberWritten(whole, "" + "{\"type\":" + Quoted("log"), ts, rest, ',', ",\"ts\":");
  }

  /** Writes a log record, as much of it as fits, and returns its full length. */
  method WriteLogRecord(
    buf: array<char>, base: nat, cap: nat, timestampMs: nat, level: string, tag: string, text: string)
    returns (total: nat)
    requires base + cap <= buf.Length
    modifies buf
    ensures var record := Record(LogFields(Decimal(timestampMs), level, tag, text));
      total == |record| && Holds(buf[..], base, cap, record)
    ensures SameOutside(old(buf[..]), buf[..], base, cap)
  {
    var timestamp := Decimal(timestampMs);
    ghost var s := "{\"type\":\"log\",\"ts\":" + timestamp + ",\"level\":";
    total := Append(buf, base, cap, 0, "{\"type\":\"log\",\"ts\":" + timestamp + ",\"level\":", "");
    total := AppendEscaped(buf, base, cap, total, level, s);
    s := s + Quoted(level);
    total := Append(buf, base, cap, total, ",\"tag\":", s);
    s := s + ",\"tag\":";
    total := AppendEscaped(buf, base, cap, total, tag, s);
    s := s + Quoted(tag);
    total := Append(buf, base, cap, total, ",\"text\":", s);
    s := s + ",\"text\":";
    total := AppendEscaped(buf, base, cap, total, text, s);
    s := s + Quoted(text);
    total := Append(buf, base, cap, total, "}", s);
    LogText(timestamp, level, tag, text);
  }
}
