/** Reading a value back from a JSON line by scanning for its quoted key. */
module SerialScan {
  import opened NavTypes
  import opened SerialJson

  const NEEDLE_CAPACITY := 32

  // ---- the scanner ------------------------------------------------------

  function Needle(key: string): string {
    [QUOTE] + key + [QUOTE]
  }

  predicate OccursAt(s: string, needle: string, i: nat) {
    i + |needle| <= |s| && s[i..i + |needle|] == needle
  }

  /** The first occurrence of `needle` from `from` on. */
  function Find(s: string, needle: string, from: nat): Option<nat>
    decreases |s| - from
  {
    if from + |needle| > |s| then None
    else if OccursAt(s, needle, from) then Some(from)
    else if from == |s| then None
    else Find(s, needle, from + 1)
  }

  function FindChar(s: string, c: char, from: nat): (r: Option<nat>)
    ensures r.Some? ==> from <= r.value < |s|
    decreases |s| - from
  {
    if from >= |s| then None else if s[from] == c then Some(from) else FindChar(s, c, from + 1)
  }

  predicate IsBlank(c: char) {
    c == ' ' || c == '\t'
  }

  function SkipBlanks(s: string, from: nat): (r: nat)
    requires from <= |s|
    ensures from <= r <= |s|
    decreases |s| - from
  {
    if from < |s| && IsBlank(s[from]) then SkipBlanks(s, from + 1) else from
  }

  /** Where the value found by scanning for `key` from `from` on starts. */
  function Landing(s: string, key: string, from: nat): (r: Option<nat>)
    ensures r.Some? ==> r.value <= |s|
  {
    match Find(s, Needle(key), from)
    case None => None
    case Some(at) =>
      match FindChar(s, ':', at + |key| + 2)
      case None => None
      case Some(colon) => Some(SkipBlanks(s, colon + 1))
  }

  function FindValue(line: string, key: string): (r: Option<nat>)
    ensures r.Some? ==> r.value <= |line|
  {
    if |key| + 2 >= NEEDLE_CAPACITY then None else Landing(line, key, 0)
  }

  /** A string value from `at` on, at most `room` characters of it: an escape yields the character after it. */
  function Unescaped(s: string, at: nat, room: nat): (r: string)
    ensures |r| <= room
    decreases room
  {
    if room == 0 || at >= |s| || s[at] == QUOTE then ""
    else if s[at] == BACKSLASH && at + 1 < |s| then [s[at + 1]] + Unescaped(s, at + 2, room - 1)
    else [s[at]] + Unescaped(s, at + 1, room - 1)
  }

  function Extract(line: string, key: string, cap: nat): (r: Option<string>)
    requires cap > 0
    ensures r.Some? ==> |r.value| < cap
  {
    match FindValue(line, key)
    case None => None
    case Some(at) =>
      if at == |line| || line[at] != QUOTE then None else Some(Unescaped(line, at + 1, cap - 1))
  }

  method LocateValue(line: string, key: string) returns (at: Option<nat>)
    ensures at == FindValue(line, key)
  {
    if |key| + 2 >= NEEDLE_CAPACITY {
      return None;
    }
    var found := Find(line, Needle(key), 0);
    if found.None? {
      return None;
    }
    var colon := FindChar(line, ':', found.value + |key| + 2);
    if colon.None? {
      return None;
    }
    var p := colon.value + 1;
    while p < |line| && (line[p] == ' ' || line[p] == '\t')
      invariant p <= |line| && SkipBlanks(line, colon.value + 1) == SkipBlanks(line, p)
    {
      p := p + 1;
    }
    return Some(p);
  }

  lemma OneOver(done: string, c: char, rest: string)
    ensures done + ([c] + rest) == done + [c] + rest
  {
  }

  /** Copies a string value into the caller's buffer, terminated; an absent or non-string value leaves it alone. */
  method ExtractString(line: string, key: string, out: array<char>) returns (found: bool)
    requires out.Length > 0
    modifies out
    ensures found <==> Extract(line, key, out.Length).Some?
    ensures found ==> Holds(out[..], 0, out.Length, Extract(line, key, out.Length).value)
    ensures !found ==> out[..] == old(out[..])
  {
    var start := LocateValue(line, key);
    if start.None? || start.value == |line| || line[start.value] != QUOTE {
      return false;
    }
    var at: nat := start.value + 1;
    var i: nat := 0;
    ghost var whole := Unescaped(line, at, out.Length - 1);
    while at < |line| && line[at] != QUOTE && i + 1 < out.Length
      invariant i < out.Length && whole == out[..i] + Unescaped(line, at, out.Length - 1 - i)
      decreases out.Length - i
    {
      if line[at] == BACKSLASH && at + 1 < |line| {
        at := at + 1;
      }
      OneOver(out[..i], line[at], Unescaped(line, at + 1, out.Length - 1 - i - 1));
      ghost var before := out[..i];
      out[i] := line[at];
      i := i + 1;
      assert out[..i] == before + [line[at]];
      at := at + 1;
    }
    out[i] := NUL;
    found := true;
  }

  // ---- finding a key in a record ----------------------------------------

  /** The scanner takes the end of this text for the quoted key: the text is the key, or ends in a quote and the key. */
  predicate Shadows(t: string, key: string) {
    EndsWith([QUOTE] + t, [QUOTE] + key)
  }

  predicate EndsWith(s: string, w: string) {
    |w| <= |s| && s[|s| - |w|..] == w
  }

  /** What scanning for `key` finds: its own value, or whatever follows the first text that shadows it. */
  function Lookup(fields: seq<Field>, key: string): Option<Value> {
    if fields == [] then None
    else if fields[0].key == key then Some(fields[0].value)
    else if fields[0].value.Text? && Shadows(fields[0].value.text, key) then
      if |fields| > 1 then Some(fields[1].value) else None
    else Lookup(fields[1..], key)
  }

  /** The quoted key stands at `i`, character by character. */
  predicate KeyAt(s: string, key: string, i: nat) {
    && i + |key| + 2 <= |s| && s[i] == QUOTE && s[i + |key| + 1] == QUOTE
    && forall j :: 0 <= j < |key| ==> s[i + 1 + j] == key[j]
  }

  lemma KeyAtIsOccurrence(s: string, key: string, i: nat)
    ensures OccursAt(s, Needle(key), i) <==> KeyAt(s, key, i)
  {
    var n := Needle(key);
    if OccursAt(s, n, i) {
      assert s[i] == s[i..i + |n|][0] && s[i + |key| + 1] == s[i..i + |n|][|key| + 1];
      forall j | 0 <= j < |key|
        ensures s[i + 1 + j] == key[j]
      {
        assert s[i..i + |n|][1 + j] == n[1 + j];
      }
    }
    if KeyAt(s, key, i) {
      forall j | 0 <= j < |n|
        ensures s[i..i + |n|][j] == n[j]
      {
        assert s[i..i + |n|][j] == s[i + j];
        if 0 < j < |n| - 1 {
          assert s[i + 1 + (j - 1)] == key[j - 1];
        }
      }
    }
  }

  lemma {:induction false} FindSkips(s: string, key: string, lo: nat, hi: nat)
    requires lo <= hi <= |s| && forall i :: lo <= i < hi ==> !KeyAt(s, key, i)
    ensures Find(s, Needle(key), lo) == Find(s, Needle(key), hi)
    decreases hi - lo
  {
    if lo < hi && lo + |key| + 2 <= |s| {
      KeyAtIsOccurrence(s, key, lo);
      FindSkips(s, key, lo + 1, hi);
    }
  }

  lemma FindHits(s: string, key: string, at: nat)
    requires KeyAt(s, key, at)
    ensures Find(s, Needle(key), at) == Some(at)
  {
    KeyAtIsOccurrence(s, key, at);
  }

  lemma {:induction false} FindCharIs(s: string, c: char, from: nat, at: nat)
    requires from <= at < |s| && s[at] == c && forall i :: from <= i < at ==> s[i] != c
    ensures FindChar(s, c, from) == Some(at)
    decreases at - from
  {
    if from < at {
      FindCharIs(s, c, from + 1, at);
    }
  }

  // ---- the end of a text ------------------------------------------------

  /** Where an escaped text holds a quote, a backslash stands before it. */
  lemma {:induction false} QuotesAreEscaped(t: string, j: nat)
    requires j < |Escaped(t)| && Escaped(t)[j] == QUOTE
    ensures j > 0 && Escaped(t)[j - 1] == BACKSLASH
  {
    var head := |EscapedChar(t[0])|;
    if j >= head {
      QuotesAreEscaped(t[1..], j - head);
    }
  }

  lemma EndsWithLast(s: string, c: char, w: string, x: char)
    ensures EndsWith(s + [c], w + [x]) <==> c == x && EndsWith(s, w)
  {
    if |w| <= |s| {
      var end := s[|s| - |w|..];
      assert (s + [c])[|s| - |w|..] == end + [c];
      assert (end + [c])[..|w|] == end && (w + [x])[..|w|] == w;
      assert (end + [c])[|w|] == c && (w + [x])[|w|] == x;
    }
  }

  lemma LastTwo(e: string, w: string)
    requires EndsWith(e, w) && |w| >= 2
    ensures e[|e| - 1] == w[|w| - 1] && e[|e| - 2] == w[|w| - 2]
  {
    assert e[|e| - |w|..][|w| - 1] == e[|e| - 1];
    assert e[|e| - |w|..][|w| - 2] == e[|e| - 2];
  }

  lemma EscapeTail(s: string, c: char)
    requires !IsKeyChar(c)
    ensures var e := [QUOTE] + s + EscapedChar(c);
      !IsKeyChar(e[|e| - 1]) || (e[|e| - 2] != QUOTE && !IsKeyChar(e[|e| - 2]))
  {
    var e := [QUOTE] + s + EscapedChar(c);
    assert e[|e| - 1] == EscapedChar(c)[|EscapedChar(c)| - 1];
    if IsControl(c) {
      assert e[|e| - 2] == HexDigit(c as int / 16);
    }
  }

  /** Escapes do not end like keys. */
  lemma EscapeEnds(s: string, c: char, key: string)
    requires IsKey(key) && !IsKeyChar(c)
    ensures !EndsWith([QUOTE] + s + EscapedChar(c), [QUOTE] + key)
  {
    EscapeTail(s, c);
    if EndsWith([QUOTE] + s + EscapedChar(c), [QUOTE] + key) {
      LastTwo([QUOTE] + s + EscapedChar(c), [QUOTE] + key);
    }
  }

  lemma EndsInQuote(s: string)
    requires s != ""
    ensures EndsWith(s, [QUOTE]) <==> s[|s| - 1] == QUOTE
  {
    assert s[|s| - 1..] == [s[|s| - 1]];
  }

  lemma ShadowsLast(front: string, c: char, key: string, x: char)
    ensures EndsWith([QUOTE] + (front + [c]), [QUOTE] + (key + [x])) <==> c == x && EndsWith([QUOTE] + front, [QUOTE] + key)
  {
    assert [QUOTE] + (front + [c]) == [QUOTE] + front + [c];
    assert [QUOTE] + (key + [x]) == [QUOTE] + key + [x];
    EndsWithLast([QUOTE] + front, c, [QUOTE] + key, x);
  }

  lemma ShadowsAfterEscape(front: string, c: char, key: string)
    requires IsKey(key) && !IsKeyChar(c)
    ensures !EndsWith([QUOTE] + (front + EscapedChar(c)), [QUOTE] + key)
  {
    EscapeEnds(front, c, key);
    assert [QUOTE] + (front + EscapedChar(c)) == [QUOTE] + front + EscapedChar(c);
  }

  lemma ShadowsStep(front: string, c: char, key: string, x: char)
    requires IsKeyChar(c)
    requires EndsWith([QUOTE] + Escaped(front), [QUOTE] + key) <==> Shadows(front, key)
    ensures EndsWith([QUOTE] + Escaped(front + [c]), [QUOTE] + (key + [x])) <==> Shadows(front + [c], key + [x])
  {
    EscapedLast(front, c);
    ShadowsLast(front, c, key, x);
    ShadowsLast(Escaped(front), c, key, x);
  }

  lemma ShadowsNeither(front: string, c: char, key: string, x: char)
    requires !IsKeyChar(c) && IsKeyChar(x) && IsKey(key + [x])
    ensures !EndsWith([QUOTE] + Escaped(front + [c]), [QUOTE] + (key + [x])) && !Shadows(front + [c], key + [x])
  {
    EscapedLast(front, c);
    ShadowsLast(front, c, key, x);
    ShadowsAfterEscape(Escaped(front), c, key + [x]);
  }

  lemma ShadowsNoKey(front: string, c: char)
    ensures EndsWith([QUOTE] + Escaped(front + [c]), [QUOTE]) <==> EndsWith([QUOTE] + (front + [c]), [QUOTE])
  {
    EscapedLast(front, c);
    EndsInQuote([QUOTE] + Escaped(front + [c]));
    EndsInQuote([QUOTE] + (front + [c]));
  }

  /** Escaping a text does not change whether it shadows a key. */
  lemma {:induction false} ShadowsEscaped(t: string, key: string)
    requires forall i :: 0 <= i < |key| ==> IsKeyChar(key[i])
    ensures EndsWith([QUOTE] + Escaped(t), [QUOTE] + key) <==> Shadows(t, key)
  {
    if t != "" {
      var front, c := t[..|t| - 1], t[|t| - 1];
      assert t == front + [c];
      if key == "" {
        assert [QUOTE] + key == [QUOTE];
        ShadowsNoKey(front, c);
      } else {
        var less, x := key[..|key| - 1], key[|key| - 1];
        assert key == less + [x];
        if IsKeyChar(c) {
          ShadowsEscaped(front, less);
          ShadowsStep(front, c, less, x);
        } else {
          ShadowsNeither(front, c, less, x);
        }
      }
    }
  }

  // ---- one member at a time ---------------------------------------------

  /** `w` stands in `s` at `a`. */
  predicate StandsAt(s: string, w: string, a: nat) {
    a + |w| <= |s| && s[a..a + |w|] == w
  }

  lemma KeyCharIn(s: string, key: string, i: nat, k: nat)
    requires IsKey(key) && KeyAt(s, key, i) && i < k <= i + |key|
    ensures IsKeyChar(s[k])
  {
    assert s[i + 1 + (k - i - 1)] == key[k - i - 1];
  }

  lemma QuotedAt(s: string, a: nat, t: string, k: nat)
    requires StandsAt(s, Quoted(t), a) && k < |Quoted(t)|
    ensures s[a + k] == if k == 0 || k == |Escaped(t)| + 1 then QUOTE else Escaped(t)[k - 1]
  {
    assert s[a + k] == s[a..a + |Quoted(t)|][k] == Quoted(t)[k];
  }

  /** An escaped quote is no end for a key. */
  lemma NoKeyEndsInside(s: string, a: nat, t: string, key: string, i: nat)
    requires IsKey(key) && StandsAt(s, Quoted(t), a) && a <= i && KeyAt(s, key, i)
    ensures i + |key| + 1 >= a + |Escaped(t)| + 1
  {
    var end := i + |key| + 1;
    if end < a + |Escaped(t)| + 1 {
      QuotedAt(s, a, t, end - a);
      QuotesAreEscaped(t, end - a - 1);
      QuotedAt(s, a, t, end - a - 1);
      KeyCharIn(s, key, i, end - 1);
    }
  }

  lemma NoKeyPassesEnd(s: string, a: nat, t: string, key: string, i: nat)
    requires IsKey(key) && StandsAt(s, Quoted(t), a) && a <= i < a + |Quoted(t)| && KeyAt(s, key, i)
    requires a + |Quoted(t)| < |s| ==> !IsKeyChar(s[a + |Quoted(t)|])
    ensures i + |key| + 1 <= a + |Escaped(t)| + 1
  {
    var close := a + |Escaped(t)| + 1;
    if i + |key| + 1 > close {
      QuotedAt(s, a, t, |Escaped(t)| + 1);
      KeyCharIn(s, key, i, if i == close then close + 1 else close);
    }
  }

  /** Within a quoted text the quoted key can only stand at its end, where the closing quote is taken for the key's. */
  lemma KeyInText(s: string, a: nat, t: string, key: string, i: nat)
    requires IsKey(key) && StandsAt(s, Quoted(t), a) && a <= i < a + |Quoted(t)| && KeyAt(s, key, i)
    requires a + |Quoted(t)| < |s| ==> !IsKeyChar(s[a + |Quoted(t)|])
    ensures Shadows(t, key) && i + |key| + 2 == a + |Quoted(t)|
  {
    NoKeyEndsInside(s, a, t, key, i);
    NoKeyPassesEnd(s, a, t, key, i);
    KeyAtIsOccurrence(s, key, i);
    NeedleEndsText(s, a, [QUOTE] + Escaped(t), key, i);
    ShadowsEscaped(t, key);
  }

  lemma NeedleEndsText(s: string, a: nat, whole: string, key: string, i: nat)
    requires StandsAt(s, whole + [QUOTE], a) && OccursAt(s, Needle(key), i) && a <= i
    requires i + |key| + 1 == a + |whole|
    ensures EndsWith(whole, [QUOTE] + key)
  {
    var q, n := whole + [QUOTE], Needle(key);
    assert s[a..a + |q|][i - a..] == s[i..i + |n|];
    assert q[i - a..] == n;
    assert whole[i - a..] == q[i - a..][..|n| - 1] == n[..|n| - 1] == [QUOTE] + key;
  }

  lemma TextEndsInNeedle(s: string, a: nat, whole: string, key: string)
    requires StandsAt(s, whole + [QUOTE], a) && EndsWith(whole, [QUOTE] + key)
    ensures |key| + 1 <= |whole| && KeyAt(s, key, a + |whole| - |key| - 1)
  {
    var q, n := whole + [QUOTE], Needle(key);
    var from := |whole| - |key| - 1;
    assert q[from..] == whole[from..] + [QUOTE] == n;
    assert s[a..a + |q|][from..] == s[a + from..a + from + |n|];
    KeyAtIsOccurrence(s, key, a + from);
  }

  /** No quoted key starts between `lo` and `hi`. */
  predicate NoKeyIn(s: string, key: string, lo: nat, hi: nat) {
    forall i :: lo <= i < hi ==> !KeyAt(s, key, i)
  }

  /** A quoted text that does not shadow a key holds no place for it. */
  lemma TextClear(s: string, a: nat, t: string, key: string, next: nat)
    requires IsKey(key) && StandsAt(s, Quoted(t), a) && next == a + |Quoted(t)| < |s| && !IsKeyChar(s[next])
    requires !Shadows(t, key)
    ensures NoKeyIn(s, key, a, next)
  {
    forall i | a <= i < next && KeyAt(s, key, i)
      ensures false
    {
      KeyInText(s, a, t, key, i);
    }
  }

  /** A shadowing text holds exactly one, at its end. */
  lemma TextShadowed(s: string, a: nat, t: string, key: string, next: nat)
    requires IsKey(key) && StandsAt(s, Quoted(t), a) && next == a + |Quoted(t)| < |s| && !IsKeyChar(s[next])
    requires Shadows(t, key)
    ensures next >= a + |key| + 2 && KeyAt(s, key, next - |key| - 2) && NoKeyIn(s, key, a, next - |key| - 2)
  {
    ShadowsEscaped(t, key);
    TextEndsInNeedle(s, a, [QUOTE] + Escaped(t), key);
    forall i | a <= i < next - |key| - 2 && KeyAt(s, key, i)
      ensures false
    {
      KeyInText(s, a, t, key, i);
    }
  }

  lemma BareKeys(s: string, a: nat, raw: string, key: string)
    requires IsBare(raw) && StandsAt(s, raw, a)
    ensures NoKeyIn(s, key, a, a + |raw|)
  {
    forall i | a <= i < a + |raw|
      ensures !KeyAt(s, key, i)
    {
      assert s[i] == s[a..a + |raw|][i - a] == raw[i - a];
    }
  }

  // ---- the scanner over a member ----------------------------------------

  lemma LandingSkips(s: string, key: string, lo: nat, hi: nat)
    requires lo <= hi <= |s| && NoKeyIn(s, key, lo, hi)
    ensures Landing(s, key, lo) == Landing(s, key, hi)
  {
    FindSkips(s, key, lo, hi);
  }

  /** From a quoted key at `at`, landing goes by the next colon. */
  function FromColon(s: string, from: nat): (r: Option<nat>)
    ensures r.Some? ==> r.value <= |s|
  {
    match FindChar(s, ':', from)
    case None => None
    case Some(colon) => Some(SkipBlanks(s, colon + 1))
  }

  lemma LandingHits(s: string, key: string, at: nat)
    requires KeyAt(s, key, at)
    ensures Landing(s, key, at) == FromColon(s, at + |key| + 2)
  {
    FindHits(s, key, at);
  }

  /** A member of a record: separator, quoted key, colon, a value from `value` to `next`, and what ends it. */
  predicate MemberAt(s: string, a: nat, key: string, value: nat, next: nat) {
    && value == a + |key| + 4 <= next < |s| && KeyAt(s, key, a + 1) && s[value - 1] == ':'
    && (s[a] == ',' || s[a] == '{') && (s[next] == ',' || s[next] == '}')
  }

  lemma NoKeyAtOther(s: string, a: nat, k: string, value: nat, next: nat, key: string)
    requires MemberAt(s, a, k, value, next) && IsKey(k) && IsKey(key) && k != key
    ensures NoKeyIn(s, key, a, value)
  {
    forall i | a <= i < value && KeyAt(s, key, i)
      ensures false
    {
      if i == a + 1 {
        SameKey(s, i, k, key);
      } else if a + 1 < i <= a + 1 + |k| {
        KeyCharIn(s, k, a + 1, i);
      } else if i == a + 2 + |k| {
        KeyCharIn(s, key, i, i + 1);
      }
    }
  }

  lemma SameKey(s: string, i: nat, k: string, l: string)
    requires IsKey(k) && IsKey(l) && KeyAt(s, k, i) && KeyAt(s, l, i)
    ensures k == l
  {
    if |k| < |l| {
      KeyCharIn(s, l, i, i + |k| + 1);
    } else if |l| < |k| {
      KeyCharIn(s, k, i, i + |l| + 1);
    } else {
      forall j | 0 <= j < |k|
        ensures k[j] == l[j]
      {
        assert s[i + 1 + j] == k[j];
      }
    }
  }

  /** From a member's separator, or from its colon on, the next colon leads to the member's value. */
  lemma ColonLeadsToValue(s: string, a: nat, k: string, value: nat, next: nat, from: nat)
    requires MemberAt(s, a, k, value, next) && IsKey(k) && (from == a || from == value - 1) && !IsBlank(s[value])
    ensures FromColon(s, from) == Some(value)
  {
    forall i | from <= i < value - 1
      ensures s[i] != ':'
    {
      if a + 1 < i < a + 2 + |k| {
        KeyCharIn(s, k, a + 1, i);
      }
    }
    FindCharIs(s, ':', from, value - 1);
  }

  lemma LandsOnOwnValue(s: string, a: nat, key: string, value: nat, next: nat)
    requires MemberAt(s, a, key, value, next) && IsKey(key) && !IsBlank(s[value])
    ensures Landing(s, key, a) == Some(value)
  {
    LandingSkips(s, key, a, a + 1);
    LandingHits(s, key, a + 1);
    ColonLeadsToValue(s, a, key, value, next, value - 1);
  }

  lemma SkipsOtherMember(s: string, a: nat, k: string, value: nat, next: nat, key: string)
    requires MemberAt(s, a, k, value, next) && IsKey(k) && IsKey(key) && k != key
    requires NoKeyIn(s, key, value, next)
    ensures Landing(s, key, a) == Landing(s, key, next)
  {
    NoKeyAtOther(s, a, k, value, next, key);
    LandingSkips(s, key, a, next);
  }

  lemma StopsAtShadow(s: string, a: nat, k: string, value: nat, next: nat, key: string)
    requires MemberAt(s, a, k, value, next) && IsKey(k) && IsKey(key) && k != key
    requires next >= value + |key| + 2 && NoKeyIn(s, key, value, next - |key| - 2) && KeyAt(s, key, next - |key| - 2)
    ensures Landing(s, key, a) == FromColon(s, next)
  {
    NoKeyAtOther(s, a, k, value, next, key);
    LandingSkips(s, key, a, next - |key| - 2);
    LandingHits(s, key, next - |key| - 2);
  }

  // ---- the scanner over a record ----------------------------------------

  lemma Next(s: string, a: nat, w: string, z: string)
    requires a <= |s| && s[a..] == w + z
    ensures StandsAt(s, w, a) && s[a + |w|..] == z
  {
    assert s[a..][..|w|] == s[a..a + |w|];
    assert s[a..][|w|..] == s[a + |w|..];
  }

  lemma TailRegrouped(separator: char, key: string, shown: string, rest: string)
    ensures [separator] + ([QUOTE] + key + [QUOTE, ':'] + shown) + rest
         == [separator] + (Needle(key) + ([':'] + (shown + rest)))
  {
  }

  lemma TailParts(s: string, a: nat, separator: char, key: string, shown: string, rest: string)
    requires a <= |s| && s[a..] == [separator] + ([QUOTE] + key + [QUOTE, ':'] + shown) + rest
    requires separator == ',' || separator == '{'
    requires rest != "" && (rest[0] == ',' || rest[0] == '}')
    ensures var value := a + |key| + 4;
      && MemberAt(s, a, key, value, value + |shown|) && StandsAt(s, shown, value) && s[value + |shown|..] == rest
  {
    TailRegrouped(separator, key, shown, rest);
    KeyPart(s, a, separator, key, [':'] + (shown + rest));
    ValuePart(s, a + |key| + 3, shown, rest);
  }

  lemma KeyPart(s: string, a: nat, separator: char, key: string, z: string)
    requires a <= |s| && s[a..] == [separator] + (Needle(key) + z)
    ensures a + |key| + 3 <= |s| && s[a] == separator && KeyAt(s, key, a + 1) && s[a + |key| + 3..] == z
  {
    Next(s, a, [separator], Needle(key) + z);
    FirstOf(s, a, [separator]);
    Next(s, a + 1, Needle(key), z);
    KeyAtIsOccurrence(s, key, a + 1);
  }

  lemma ValuePart(s: string, a: nat, shown: string, rest: string)
    requires a <= |s| && s[a..] == [':'] + (shown + rest) && rest != ""
    ensures a + 1 + |shown| < |s| && s[a] == ':' && StandsAt(s, shown, a + 1) && s[a + 1 + |shown|..] == rest
    ensures s[a + 1 + |shown|] == rest[0]
  {
    Next(s, a, [':'], shown + rest);
    FirstOf(s, a, [':']);
    Next(s, a + 1, shown, rest);
    assert s[a + 1 + |shown|..][0] == rest[0];
  }

  lemma FirstOf(s: string, a: nat, w: string)
    requires StandsAt(s, w, a) && w != ""
    ensures s[a] == w[0]
  {
    assert s[a..a + |w|][0] == w[0];
  }

  lemma ValueStart(s: string, v: Value, at: nat)
    requires StandsAt(s, Shown(v), at) && (v.Bare? ==> IsBare(v.raw))
    ensures at < |s| && !IsBlank(s[at]) && (s[at] == QUOTE <==> v.Text?)
  {
    FirstOf(s, at, Shown(v));
  }

  /** The scanner's landing place fits what the lookup says. */
  predicate Landed(s: string, at: Option<nat>, v: Option<Value>) {
    match v
    case None => at.None?
    case Some(w) => at.Some? && StandsAt(s, Shown(w), at.value) && (w.Bare? ==> IsBare(w.raw))
  }

  function ValueOf(a: nat, f: Field): nat {
    a + |f.key| + 4
  }

  function NextOf(a: nat, f: Field): nat {
    ValueOf(a, f) + |Shown(f.value)|
  }

  lemma TailUnfolds(fields: seq<Field>, separator: char)
    requires fields != []
    ensures Tail(fields, separator)
         == [separator] + ([QUOTE] + fields[0].key + [QUOTE, ':'] + Shown(fields[0].value)) + Tail(fields[1..], ',')
  {
  }

  lemma TailStarts(fields: seq<Field>, separator: char)
    ensures Tail(fields, separator) != ""
    ensures Tail(fields, separator)[0] == if fields == [] then '}' else separator
  {
  }

  /** The first member's place in the rest of a record, and the rest after it. */
  lemma FirstMember(s: string, a: nat, fields: seq<Field>, separator: char)
    requires a <= |s| && fields != [] && s[a..] == Tail(fields, separator)
    requires separator == ',' || separator == '{'
    ensures MemberAt(s, a, fields[0].key, ValueOf(a, fields[0]), NextOf(a, fields[0]))
    ensures StandsAt(s, Shown(fields[0].value), ValueOf(a, fields[0]))
    ensures s[NextOf(a, fields[0])..] == Tail(fields[1..], ',')
  {
    TailUnfolds(fields, separator);
    TailStarts(fields[1..], ',');
    TailParts(s, a, separator, fields[0].key, Shown(fields[0].value), Tail(fields[1..], ','));
  }

  /** After a shadowing text the scanner takes the next member's value, if there is one. */
  lemma AfterShadow(s: string, a: nat, fields: seq<Field>)
    requires a <= |s| && s[a..] == Tail(fields, ',') && WellFormed(fields)
    ensures Landed(s, FromColon(s, a), if fields == [] then None else Some(fields[0].value))
  {
    if fields == [] {
      assert s[a] == s[a..][0] == '}' && |s| == a + 1;
    } else {
      FirstMember(s, a, fields, ',');
      ValueStart(s, fields[0].value, ValueOf(a, fields[0]));
      ColonLeadsToValue(s, a, fields[0].key, ValueOf(a, fields[0]), NextOf(a, fields[0]), a);
    }
  }

  lemma NothingLeft(s: string, a: nat, key: string)
    requires a + |key| + 2 > |s|
    ensures Landing(s, key, a) == None
  {
  }

  predicate MemberStands(s: string, a: nat, f: Field) {
    && MemberAt(s, a, f.key, ValueOf(a, f), NextOf(a, f)) && StandsAt(s, Shown(f.value), ValueOf(a, f))
    && IsKey(f.key) && (f.value.Bare? ==> IsBare(f.value.raw))
  }

  lemma OwnMember(s: string, a: nat, f: Field)
    requires MemberStands(s, a, f)
    ensures Landed(s, Landing(s, f.key, a), Some(f.value))
  {
    ValueStart(s, f.value, ValueOf(a, f));
    LandsOnOwnValue(s, a, f.key, ValueOf(a, f), NextOf(a, f));
  }

  lemma MemberPassed(s: string, a: nat, f: Field, key: string)
    requires MemberStands(s, a, f) && IsKey(key) && f.key != key
    requires f.value.Text? ==> !Shadows(f.value.text, key)
    ensures Landing(s, key, a) == Landing(s, key, NextOf(a, f))
  {
    match f.value {
      case Text(t) => TextClear(s, ValueOf(a, f), t, key, NextOf(a, f));
      case Bare(raw) => BareKeys(s, ValueOf(a, f), raw, key);
    }
    SkipsOtherMember(s, a, f.key, ValueOf(a, f), NextOf(a, f), key);
  }

  lemma TextMemberShadows(s: string, a: nat, k: string, t: string, value: nat, next: nat, key: string)
    requires MemberAt(s, a, k, value, next) && IsKey(k) && IsKey(key) && k != key
    requires StandsAt(s, Quoted(t), value) && next == value + |Quoted(t)| && Shadows(t, key)
    ensures Landing(s, key, a) == FromColon(s, next)
  {
    TextShadowed(s, value, t, key, next);
    StopsAtShadow(s, a, k, value, next, key);
  }

  lemma MemberShadows(s: string, a: nat, f: Field, key: string)
    requires MemberStands(s, a, f) && IsKey(key) && f.key != key
    requires f.value.Text? && Shadows(f.value.text, key)
    ensures Landing(s, key, a) == FromColon(s, NextOf(a, f))
  {
    TextMemberShadows(s, a, f.key, f.value.text, ValueOf(a, f), NextOf(a, f), key);
  }

  /** Scanning the rest of a record lands where the lookup says. */
  lemma {:induction false} LandingIsLookup(s: string, a: nat, fields: seq<Field>, separator: char, key: string)
    requires a <= |s| && s[a..] == Tail(fields, separator) && (separator == ',' || separator == '{')
    requires WellFormed(fields) && IsKey(key)
    ensures Landed(s, Landing(s, key, a), Lookup(fields, key))
    decreases |fields|
  {
    if fields == [] {
      NothingLeft(s, a, key);
    } else {
      var f := fields[0];
      FirstMember(s, a, fields, separator);
      if f.key == key {
        OwnMember(s, a, f);
      } else if f.value.Text? && Shadows(f.value.text, key) {
        MemberShadows(s, a, f, key);
        AfterShadow(s, NextOf(a, f), fields[1..]);
      } else {
        MemberPassed(s, a, f, key);
        LandingIsLookup(s, NextOf(a, f), fields[1..], ',', key);
      }
    }
  }

  // ---- reading a value back ---------------------------------------------

  function Truncated(t: string, room: nat): string {
    t[..Min(|t|, room)]
  }

  lemma {:induction false} PlainRun(s: string, at: nat, w: string, room: nat)
    requires StandsAt(s, w, at) && forall i :: 0 <= i < |w| ==> w[i] != QUOTE && w[i] != BACKSLASH
    ensures Unescaped(s, at, room) == Truncated(w, room) + Unescaped(s, at + |w|, room - Min(|w|, room))
    decreases |w|
  {
    if w != "" && room > 0 {
      FirstOf(s, at, w);
      assert s[at + 1..at + |w|] == s[at..at + |w|][1..];
      PlainRun(s, at + 1, w[1..], room - 1);
    }
  }

  lemma TruncatedInTwo(a: string, b: string, room: nat)
    ensures Truncated(a + b, room) == Truncated(a, room) + Truncated(b, room - Min(|a|, room))
  {
  }

  lemma EscapeRead(s: string, at: nat, first: char, w: string, room: nat)
    requires StandsAt(s, [BACKSLASH, first] + w, at)
    requires forall i :: 0 <= i < |w| ==> w[i] != QUOTE && w[i] != BACKSLASH
    ensures Unescaped(s, at, room)
         == Truncated([first] + w, room) + Unescaped(s, at + 2 + |w|, room - Min(1 + |w|, room))
  {
    if room > 0 {
      EscapePlace(s, at, first, w);
      PlainRun(s, at + 2, w, room - 1);
      TruncatedInTwo([first], w, room);
    }
  }

  lemma EscapePlace(s: string, at: nat, first: char, w: string)
    requires StandsAt(s, [BACKSLASH, first] + w, at)
    ensures s[at] == BACKSLASH && s[at + 1] == first && StandsAt(s, w, at + 2)
  {
    var e := [BACKSLASH, first] + w;
    assert s[at] == s[at..at + |e|][0] && s[at + 1] == s[at..at + |e|][1];
    assert s[at + 2..at + |e|] == s[at..at + |e|][2..] == w;
  }

  lemma PairRead(s: string, at: nat, c: char, room: nat)
    requires StandsAt(s, [BACKSLASH, c], at)
    ensures Unescaped(s, at, room) == Truncated([c], room) + Unescaped(s, at + 2, room - Min(1, room))
  {
    assert [BACKSLASH, c] + "" == [BACKSLASH, c] && [c] + "" == [c];
    EscapeRead(s, at, c, "", room);
  }

  lemma ControlRead(s: string, at: nat, c: char, room: nat)
    requires IsControl(c) && StandsAt(s, ControlEscape(c), at)
    ensures Unescaped(s, at, room)
         == Truncated(ControlEscape(c)[1..], room) + Unescaped(s, at + 6, room - Min(5, room))
  {
    var e := ControlEscape(c);
    assert e == [BACKSLASH, 'u'] + e[2..] && e[1..] == ['u'] + e[2..];
    EscapeRead(s, at, 'u', e[2..], room);
  }

  lemma CharRead(s: string, at: nat, c: char, room: nat)
    requires StandsAt(s, EscapedChar(c), at)
    ensures Unescaped(s, at, room)
         == Truncated(LossyChar(c), room) + Unescaped(s, at + |EscapedChar(c)|, room - Min(|LossyChar(c)|, room))
  {
    if c == QUOTE || c == BACKSLASH {
      PairRead(s, at, c, room);
    } else if IsControl(c) {
      ControlRead(s, at, c, room);
    } else {
      PlainRun(s, at, [c], room);
    }
  }

  lemma StandsInTwo(s: string, at: nat, head: string, rest: string)
    requires StandsAt(s, head + rest, at)
    ensures StandsAt(s, head, at) && StandsAt(s, rest, at + |head|)
  {
    assert s[at..at + |head|] == s[at..at + |head + rest|][..|head|];
    assert s[at + |head|..at + |head + rest|] == s[at..at + |head + rest|][|head|..];
  }

  lemma TextInTwo(t: string)
    requires t != ""
    ensures Escaped(t) + [QUOTE] == EscapedChar(t[0]) + (Escaped(t[1..]) + [QUOTE])
    ensures Lossy(t) == LossyChar(t[0]) + Lossy(t[1..])
  {
  }

  /** An escaped text reads back as the text, cut to the room there is. */
  lemma {:induction false} TextRead(s: string, at: nat, t: string, room: nat)
    requires StandsAt(s, Escaped(t) + [QUOTE], at)
    ensures Unescaped(s, at, room) == Truncated(Lossy(t), room)
    decreases |t|
  {
    if t == "" {
      FirstOf(s, at, [QUOTE]);
    } else {
      var head, rest := EscapedChar(t[0]), Escaped(t[1..]) + [QUOTE];
      TextInTwo(t);
      StandsInTwo(s, at, head, rest);
      CharRead(s, at, t[0], room);
      var left := room - Min(|LossyChar(t[0])|, room);
      TextRead(s, at + |head|, t[1..], left);
      TruncatedInTwo(LossyChar(t[0]), Lossy(t[1..]), room);
    }
  }

  /** What a caller gets for a value the lookup yields. */
  function Read(v: Option<Value>, cap: nat): Option<string>
    requires cap > 0
  {
    if v.Some? && v.value.Text? then Some(Truncated(Lossy(v.value.text), cap - 1)) else None
  }

  lemma LandedIsRead(line: string, at: Option<nat>, v: Option<Value>, cap: nat)
    requires Landed(line, at, v) && cap > 0
    ensures at.Some? ==> at.value < |line|
    ensures Read(v, cap) ==
      if at.None? || line[at.value] != QUOTE then None else Some(Unescaped(line, at.value + 1, cap - 1))
  {
    if v.Some? {
      ValueStart(line, v.value, at.value);
      if v.value.Text? {
        QuotedTail(line, at.value, v.value.text);
        TextRead(line, at.value + 1, v.value.text, cap - 1);
      }
    }
  }

  lemma QuotedTail(s: string, at: nat, t: string)
    requires StandsAt(s, Quoted(t), at)
    ensures StandsAt(s, Escaped(t) + [QUOTE], at + 1)
  {
    assert s[at..at + |Quoted(t)|][1..] == s[at + 1..at + |Quoted(t)|];
    assert Quoted(t)[1..] == Escaped(t) + [QUOTE];
  }

  /** Extracting a key from any written record yields exactly the text the lookup finds, cut to the caller's buffer. */
  lemma ExtractIsLookup(fields: seq<Field>, key: string, cap: nat)
    requires fields != [] && WellFormed(fields) && IsKey(key) && cap > 0 && |key| + 2 < NEEDLE_CAPACITY
    ensures Extract(Record(fields), key, cap) == Read(Lookup(fields, key), cap)
  {
    var line := Record(fields);
    assert line[0..] == line;
    LandingIsLookup(line, 0, fields, '{', key);
    LandedIsRead(line, Landing(line, key, 0), Lookup(fields, key), cap);
  }

  lemma OtherTextOfSameLength(t: string, key: string)
    requires |t| == |key| && t != key
    ensures !Shadows(t, key)
  {
    assert ([QUOTE] + t)[0..] == [QUOTE] + t;
    assert ([QUOTE] + t)[1..] == t && ([QUOTE] + key)[1..] == key;
  }

  lemma OtherLastChar(t: string, key: string)
    requires t != "" && key != "" && t[|t| - 1] != key[|key| - 1]
    ensures !Shadows(t, key)
  {
    var front, less := t[..|t| - 1], key[..|key| - 1];
    assert t == front + [t[|t| - 1]] && key == less + [key[|key| - 1]];
    ShadowsLast(front, t[|t| - 1], less, key[|key| - 1]);
  }

  lemma LookupFirst(f: Field, rest: seq<Field>, key: string)
    ensures Lookup([f] + rest, key) ==
      if f.key == key then Some(f.value)
      else if f.value.Text? && Shadows(f.value.text, key) then (if rest == [] then None else Some(rest[0].value))
      else Lookup(rest, key)
  {
    assert ([f] + rest)[1..] == rest;
  }

  /** Among three texts in a row, only the first can hide the third. */
  lemma LookupAmongThree(a: Field, b: Field, c: Field, key: string)
    requires a.value.Text? && b.value.Text? && c.value.Text?
    requires a.key != b.key && a.key != c.key && b.key != c.key && key in {a.key, b.key, c.key}
    ensures Lookup([a] + ([b] + ([c] + [])), key) ==
      if key == a.key then Some(a.value)
      else if key == b.key || Shadows(a.value.text, key) then Some(b.value)
      else Some(c.value)
  {
    LookupFirst(a, [b] + ([c] + []), key);
    LookupFirst(b, [c] + [], key);
    LookupFirst(c, [], key);
  }

  lemma LogHeadPassed(timestamp: string, rest: seq<Field>, key: string)
    requires key in {"level", "tag", "text"}
    ensures Lookup([Field("type", Text("log"))] + ([Field("ts", Bare(timestamp))] + rest), key) == Lookup(rest, key)
  {
    if key == "tag" {
      OtherTextOfSameLength("log", key);
    } else {
      OtherLastChar("log", key);
    }
    LookupFirst(Field("type", Text("log")), [Field("ts", Bare(timestamp))] + rest, key);
    LookupFirst(Field("ts", Bare(timestamp)), rest, key);
  }

  /** What a log record answers for the key of one of its three texts. */
  function LogAnswer(level: string, tag: string, text: string, key: string): string {
    if key == "level" then level
    else if key == "tag" || Shadows(level, key) then tag
    else text
  }

  lemma LogLookup(timestamp: string, level: string, tag: string, text: string, key: string)
    requires IsBare(timestamp) && key in {"level", "tag", "text"}
    ensures Lookup(LogFields(timestamp, level, tag, text), key) == Some(Text(LogAnswer(level, tag, text, key)))
  {
    var a, b, c := Field("level", Text(level)), Field("tag", Text(tag)), Field("text", Text(text));
    var rest := [a] + ([b] + ([c] + []));
    LookupAmongThree(a, b, c, key);
    LogHeadPassed(timestamp, rest, key);
    assert LogFields(timestamp, level, tag, text)
        == [Field("type", Text("log"))] + ([Field("ts", Bare(timestamp))] + rest);
  }

  /** A log record gives back its level and its tag whatever they are, and its text unless the level shadows the key:
      then the tag comes back in its place. */
  lemma LogReadsBack(timestamp: string, level: string, tag: string, text: string, key: string, cap: nat)
    requires cap > 0 && IsBare(timestamp) && key in {"level", "tag", "text"}
    ensures Extract(Record(LogFields(timestamp, level, tag, text)), key, cap)
         == Some(Truncated(Lossy(LogAnswer(level, tag, text, key)), cap - 1))
  {
    LogLookup(timestamp, level, tag, text, key);
    ExtractIsLookup(LogFields(timestamp, level, tag, text), key, cap);
  }

  lemma EndsWithSelf(s: string)
    ensures EndsWith(s, s)
  {
    assert s[0..] == s;
  }

  lemma EndsWithAfter(c: char, t: string, w: string)
    requires |w| <= |t|
    ensures EndsWith([c] + t, w) <==> EndsWith(t, w)
  {
    assert ([c] + t)[1 + |t| - |w|..] == t[|t| - |w|..];
  }

  lemma SameAfterQuote(t: string, key: string)
    requires |t| == |key|
    ensures Shadows(t, key) <==> t == key
  {
    if t == key {
      EndsWithSelf([QUOTE] + t);
    } else {
      OtherTextOfSameLength(t, key);
    }
  }

  /** A text shadows a key when it is the key, or ends in a quote followed by the key. */
  lemma ShadowsMeans(t: string, key: string)
    ensures Shadows(t, key) <==> t == key || EndsWith(t, [QUOTE] + key)
  {
    if |key| < |t| {
      EndsWithAfter(QUOTE, t, [QUOTE] + key);
    } else if |key| == |t| {
      SameAfterQuote(t, key);
    }
  }

  /** For control-free members: the text comes back, cut to the buffer, if and only if the level does not shadow it or
      the tag agrees with it as far as the buffer goes. */
  lemma LogTextComesBack(timestamp: string, level: string, tag: string, text: string, cap: nat)
    requires IsBare(timestamp) && cap > 0 && ControlFree(tag) && ControlFree(text)
    ensures Extract(Record(LogFields(timestamp, level, tag, text)), "text", cap) == Some(Truncated(text, cap - 1))
       <==> !Shadows(level, "text") || Truncated(tag, cap - 1) == Truncated(text, cap - 1)
  {
    LogReadsBack(timestamp, level, tag, text, "text", cap);
    LossyKeepsText(tag);
    LossyKeepsText(text);
  }

  /** A level that spells the key really does hide the text: the tag comes back instead. */
  lemma LevelHidesText(timestamp: string, tag: string, text: string, cap: nat)
    requires IsBare(timestamp) && ControlFree(tag) && cap > 0
    ensures Extract(Record(LogFields(timestamp, "text", tag, text)), "text", cap) == Some(Truncated(tag, cap - 1))
  {
    var key := "text";
    SameAfterQuote(key, key);
    LogReadsBack(timestamp, key, tag, text, key, cap);
    LossyKeepsText(tag);
  }
}
