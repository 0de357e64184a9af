/** Refreshing the trust pin in an environment file: scripts/refresh_privacy_core_pin.py. */
module PinRefresh {
  import opened EnvFile
  import opened Text

  const PIN_KEY := "PRIVACY_CORE_ALLOWED_SHA256"
  const TRUE_VALUES: set<string> := {"1", "true", "yes", "on", "allow", "enabled"}

  predicate StartsKey(c: char) { 'A' <= c <= 'Z' || 'a' <= c <= 'z' || c == '_' }

  predicate InKey(c: char) { StartsKey(c) || '0' <= c <= '9' }

  /** The end of the stretch of key characters that starts at `n`. */
  function KeyEnd(s: string, n: nat): (m: nat)
    requires n <= |s|
    ensures n <= m <= |s|
    ensures forall i :: n <= i < m ==> InKey(s[i])
    ensures m < |s| ==> !InKey(s[m])
    decreases |s| - n
  {
    if n < |s| && InKey(s[n]) then KeyEnd(s, n + 1) else n
  }

  const QUOTE := (c: char) => c == '\"'
  const APOSTROPHE := (c: char) => c == '\''

  /** `raw.strip().strip('"').strip("'")` */
  function Clean(raw: string): string { Trim(Trim(Strip(raw), QUOTE), APOSTROPHE) }

  /** Text whose ends are neither spaces nor quotes of either kind. */
  predicate IsBare(s: string) { s != [] && IsBareChar(s[0]) && IsBareChar(s[|s| - 1]) }

  predicate IsBareChar(c: char) { !IsSpace(c) && !QUOTE(c) && !APOSTROPHE(c) }

  function Between(c: char, s: string): (r: string)
    ensures |r| == |s| + 2 && r[0] == c && r[|r| - 1] == c
  {
    [c] + (s + [c])
  }

  lemma TrimLeftOne(c: char, s: string, drop: char -> bool)
    requires s != [] && !drop(s[0]) && drop(c)
    ensures TrimLeft([c] + s, drop) == s
  {
    assert ([c] + s)[1..] == s;
  }

  lemma TrimRightOne(s: string, c: char, drop: char -> bool)
    requires s != [] && !drop(s[|s| - 1]) && drop(c)
    ensures TrimRight(s + [c], drop) == s
  {
    assert (s + [c])[..|s|] == s;
  }

  /** Trimming takes the two characters off exactly if they are among those to be dropped. */
  lemma TrimBetween(c: char, s: string, drop: char -> bool)
    requires s != [] && !drop(s[0]) && !drop(s[|s| - 1])
    ensures Trim(Between(c, s), drop) == if drop(c) then s else Between(c, s)
  {
    if drop(c) {
      TrimLeftOne(c, s + [c], drop);
      TrimRightOne(s, c, drop);
    } else {
      TrimFixed(Between(c, s), drop);
    }
  }

  const DOUBLE := '\"'
  const SINGLE := '\''

  lemma CleanBy(raw: string, a: string, b: string, v: string)
    requires Trim(raw, IsSpace) == a && Trim(a, QUOTE) == b && Trim(b, APOSTROPHE) == v
    ensures Clean(raw) == v
  {
  }

  /** One pair of quotes of either kind comes off. */
  lemma CleanUnquotes(s: string)
    requires IsBare(s)
    ensures Clean(Between(DOUBLE, s)) == s && Clean(Between(SINGLE, s)) == s
  {
    CleanDouble(s);
    CleanSingle(s);
  }

  lemma CleanDouble(s: string)
    requires IsBare(s)
    ensures Clean(Between(DOUBLE, s)) == s
  {
    var q := Between(DOUBLE, s);
    TrimFixed(q, IsSpace);
    TrimBetween(DOUBLE, s, QUOTE);
    TrimFixed(s, APOSTROPHE);
    CleanBy(q, q, s, s);
  }

  lemma CleanSingle(s: string)
    requires IsBare(s)
    ensures Clean(Between(SINGLE, s)) == s
  {
    var q := Between(SINGLE, s);
    TrimFixed(q, IsSpace);
    TrimFixed(q, QUOTE);
    TrimBetween(SINGLE, s, APOSTROPHE);
    CleanBy(q, q, q, s);
  }

  /** Of two pairs both come off if the double ones are outside, and only the single ones if those are. */
  lemma CleanUnquotesTwice(s: string)
    requires IsBare(s)
    ensures Clean(Between(DOUBLE, Between(SINGLE, s))) == s
    ensures Clean(Between(SINGLE, Between(DOUBLE, s))) == Between(DOUBLE, s)
  {
    CleanDoubleOutside(s, Between(SINGLE, s));
    CleanSingleOutside(Between(DOUBLE, s));
  }

  lemma CleanDoubleOutside(s: string, q: string)
    requires IsBare(s) && q == Between(SINGLE, s)
    ensures Clean(Between(DOUBLE, q)) == s
  {
    TrimFixed(Between(DOUBLE, q), IsSpace);
    TrimBetween(DOUBLE, q, QUOTE);
    TrimBetween(SINGLE, s, APOSTROPHE);
    CleanBy(Between(DOUBLE, q), Between(DOUBLE, q), q, s);
  }

  lemma CleanSingleOutside(q: string)
    requires q != [] && q[0] == DOUBLE && q[|q| - 1] == DOUBLE
    ensures Clean(Between(SINGLE, q)) == q
  {
    TrimFixed(Between(SINGLE, q), IsSpace);
    TrimFixed(Between(SINGLE, q), QUOTE);
    TrimBetween(SINGLE, q, APOSTROPHE);
    CleanBy(Between(SINGLE, q), Between(SINGLE, q), Between(SINGLE, q), q);
  }

  /** Spaces and an equals sign. */
  predicate Assigns(u: string) {
    var rest := TrimLeft(u, IsSpace);
    rest != [] && rest[0] == '='
  }

  /** What follows the key: spaces, equals sign, anything. */
  function ParseValue(key: string, u: string): Option<(string, string)> {
    if Assigns(u) then Some((key, Clean(TrimLeft(u, IsSpace)[1..]))) else None
  }

  function ParseKey(t: string): Option<(string, string)> {
    if t == [] || !StartsKey(t[0]) then None else ParseValue(t[..KeyEnd(t, 0)], t[KeyEnd(t, 0)..])
  }

  /** Scans one line the way the general pattern does. */
  function ParseLine(line: string): Option<(string, string)> { ParseKey(TrimLeft(line, IsSpace)) }

  predicate AssignsTo(t: string, key: string) { |t| >= |key| && t[..|key|] == key && Assigns(t[|key|..]) }

  /** The pin pattern looks for its key literally. */
  predicate IsPin(line: string) { AssignsTo(TrimLeft(line, IsSpace), PIN_KEY) }

  function PinLine(digest: string): string { PIN_KEY + "=" + digest }

  function EnvFormat(digest: string): Format<string, string, string> {
    Format(ParseLine, IsPin, (line: string) => Strip(line) == "", PIN_KEY, digest, PinLine(digest), "")
  }

  // ---- the scanner is the pattern ----

  ghost predicate AllSpace(s: string) { forall i :: 0 <= i < |s| ==> IsSpace(s[i]) }

  ghost predicate IsKey(s: string) { s != [] && StartsKey(s[0]) && forall i :: 0 <= i < |s| ==> InKey(s[i]) }

  /** The line pattern: optional space, a key, optional space, an equals sign, anything. */
  ghost predicate Fits(line: string, a: string, key: string, b: string, c: string) {
    AllSpace(a) && IsKey(key) && AllSpace(b) && line == a + (key + (b + (['='] + c)))
  }

  lemma {:induction false} TrimLeftSkips(a: string, x: string)
    requires AllSpace(a) && (x == [] || !IsSpace(x[0]))
    ensures TrimLeft(a + x, IsSpace) == x
  {
    if a == [] {
      assert a + x == x;
    } else {
      assert (a + x)[1..] == a[1..] + x;
      TrimLeftSkips(a[1..], x);
    }
  }

  lemma KeyIsNoSpace(c: char)
    ensures InKey(c) ==> !IsSpace(c) && c != '='
    ensures !InKey('=') && !IsSpace('=')
  {
  }

  lemma KeyEndIs(s: string, m: nat)
    requires m <= |s| && (forall i :: 0 <= i < m ==> InKey(s[i])) && (m < |s| ==> !InKey(s[m]))
    ensures KeyEnd(s, 0) == m
  {
  }

  lemma ValueComplete(key: string, b: string, c: string)
    requires AllSpace(b)
    ensures ParseValue(key, b + (['='] + c)) == Some((key, Clean(c)))
  {
    TrimLeftSkips(b, ['='] + c);
    assert (['='] + c)[1..] == c;
  }

  lemma KeyComplete(key: string, u: string)
    requires IsKey(key) && u != [] && !InKey(u[0])
    ensures ParseKey(key + u) == ParseValue(key, u)
  {
    var t := key + u;
    assert t[0] == key[0];
    KeyEndIs(t, |key|);
    assert t[..|key|] == key && t[|key|..] == u;
  }

  /** A line that fits the pattern is read as its key and its cleaned value, so it fits in one way only. */
  lemma ParseComplete(line: string, a: string, key: string, b: string, c: string)
    requires Fits(line, a, key, b, c)
    ensures ParseLine(line) == Some((key, Clean(c)))
  {
    AfterKey(b, c);
    KeyIsNoSpace(key[0]);
    TrimLeftSkips(a, key + (b + (['='] + c)));
    KeyComplete(key, b + (['='] + c));
    ValueComplete(key, b, c);
  }

  lemma AfterKey(b: string, c: string)
    requires AllSpace(b)
    ensures var u := b + (['='] + c); u != [] && !InKey(u[0])
  {
    if b != [] { KeyIsNoSpace(b[0]); }
  }

  lemma TrimSplits(s: string) returns (a: string)
    ensures AllSpace(a) && s == a + TrimLeft(s, IsSpace)
  {
    a := s[..|s| - |TrimLeft(s, IsSpace)|];
  }

  lemma ValueSound(key: string, u: string) returns (b: string, c: string)
    requires ParseValue(key, u).Some?
    ensures AllSpace(b) && u == b + (['='] + c) && ParseValue(key, u) == Some((key, Clean(c)))
  {
    b := TrimSplits(u);
    c := TrimLeft(u, IsSpace)[1..];
    SplitHead(TrimLeft(u, IsSpace));
  }

  lemma SplitHead(rest: string)
    requires rest != [] && rest[0] == '='
    ensures rest == ['='] + rest[1..]
  {
  }

  lemma KeyIsPrefix(t: string)
    requires t != [] && StartsKey(t[0])
    ensures IsKey(t[..KeyEnd(t, 0)]) && t == t[..KeyEnd(t, 0)] + t[KeyEnd(t, 0)..]
  {
  }

  lemma KeySound(t: string) returns (key: string, b: string, c: string)
    requires ParseKey(t).Some?
    ensures IsKey(key) && AllSpace(b) && t == key + (b + (['='] + c)) && ParseKey(t) == Some((key, Clean(c)))
  {
    KeyIsPrefix(t);
    key := t[..KeyEnd(t, 0)];
    b, c := ValueSound(key, t[KeyEnd(t, 0)..]);
  }

  /** A line that is read as something fits the pattern, with that key and that value. */
  lemma ParseSound(line: string) returns (a: string, key: string, b: string, c: string)
    requires ParseLine(line).Some?
    ensures Fits(line, a, key, b, c) && ParseLine(line) == Some((key, Clean(c)))
  {
    a := TrimSplits(line);
    key, b, c := KeySound(TrimLeft(line, IsSpace));
  }

  lemma PinIsKey()
    ensures IsKey(PIN_KEY)
  {
  }

  /** An assignment that starts behind a key leaves no key character behind it. */
  lemma AssignsEndsKey(u: string)
    requires Assigns(u)
    ensures u != [] && !InKey(u[0])
  {
    if u != [] { KeyIsNoSpace(u[0]); }
  }

  lemma KeyAtStart(t: string, key: string)
    requires IsKey(key) && |t| > |key| && t[..|key|] == key && !InKey(t[|key|])
    ensures StartsKey(t[0]) && KeyEnd(t, 0) == |key|
  {
    forall i | 0 <= i < |key| ensures InKey(t[i]) {
      assert t[i] == t[..|key|][i];
    }
    KeyEndIs(t, |key|);
    assert t[0] == t[..|key|][0];
  }

  lemma KeysAgree(t: string, key: string)
    requires IsKey(key)
    ensures AssignsTo(t, key) <==> ParseKey(t).Some? && ParseKey(t).value.0 == key
  {
    if AssignsTo(t, key) {
      AssignsEndsKey(t[|key|..]);
      KeyAtStart(t, key);
    }
  }

  /** The pattern that finds the pin and the pattern that reads keys agree on every line. */
  lemma PatternsAgree(line: string)
    ensures IsPin(line) <==> ParseLine(line).Some? && ParseLine(line).value.0 == PIN_KEY
  {
    PinIsKey();
    KeysAgree(TrimLeft(line, IsSpace), PIN_KEY);
  }

  // ---- a digest survives the trip ----

  predicate IsHex(c: char) { '0' <= c <= '9' || 'a' <= c <= 'f' }

  ghost predicate IsDigest(s: string) { s != [] && forall i :: 0 <= i < |s| ==> IsHex(s[i]) }

  lemma HexIsPlain(c: char)
    requires IsHex(c)
    ensures !IsSpace(c) && !QUOTE(c) && !APOSTROPHE(c) && LowerChar(c) == c
  {
  }

  lemma DigestIsClean(digest: string)
    requires IsDigest(digest)
    ensures Clean(digest) == digest && Lower(Strip(digest)) == digest
  {
    HexIsPlain(digest[0]);
    HexIsPlain(digest[|digest| - 1]);
    TrimFixed(digest, IsSpace);
    TrimFixed(digest, QUOTE);
    TrimFixed(digest, APOSTROPHE);
    forall i | 0 <= i < |digest| ensures LowerChar(digest[i]) == digest[i] { HexIsPlain(digest[i]); }
  }

  lemma PinLineReads(digest: string)
    requires IsDigest(digest)
    ensures ParseLine(PinLine(digest)) == Some((PIN_KEY, digest))
  {
    PinIsKey();
    DigestIsClean(digest);
    assert PinLine(digest) == [] + (PIN_KEY + ([] + (['='] + digest)));
    ParseComplete(PinLine(digest), [], PIN_KEY, [], digest);
  }

  lemma BlankReads()
    ensures ParseLine("") == None
  {
  }

  lemma FormatReads(digest: string, line: string)
    ensures EnvFormat(digest).isPin(line) <==>
            EnvFormat(digest).parse(line).Some? && EnvFormat(digest).parse(line).value.0 == EnvFormat(digest).pin
  {
    PatternsAgree(line);
  }

  lemma FormatWrites(digest: string)
    requires IsDigest(digest)
    ensures var f := EnvFormat(digest); f.parse(f.pinLine) == Some((f.pin, f.digest)) && f.parse(f.blank) == None
  {
    PinLineReads(digest);
    BlankReads();
  }

  lemma FormatAgrees(digest: string)
    requires IsDigest(digest)
    ensures Agrees(EnvFormat(digest))
  {
    var f := EnvFormat(digest);
    FormatWrites(digest);
    forall line: string ensures f.isPin(line) <==> f.parse(line).Some? && f.parse(line).value.0 == f.pin {
      FormatReads(digest, line);
    }
  }

  // ---- the file ----

  /** The line boundaries of `str.splitlines`. */
  predicate IsBreak(c: char) {
    var n := c as int;
    0x0a <= n <= 0x0d || 0x1c <= n <= 0x1e || n == 0x85 || n == 0x2028 || n == 0x2029
  }

  /** Reading a file as text turns every line ending into a line feed. */
  function ReadUpTo(raw: string, n: nat): string
    requires n <= |raw|
  {
    if n == 0 then []
    else if raw[n - 1] == '\n' && n > 1 && raw[n - 2] == '\r' then ReadUpTo(raw, n - 1)
    else ReadUpTo(raw, n - 1) + [if raw[n - 1] == '\r' then '\n' else raw[n - 1]]
  }

  function ReadText(raw: string): string { ReadUpTo(raw, |raw|) }

  /** Writing a file as text turns line feeds into the platform's line ending. */
  function WriteUpTo(text: string, crlf: bool, n: nat): string
    requires n <= |text|
  {
    if n == 0 then []
    else WriteUpTo(text, crlf, n - 1) + if text[n - 1] == '\n' && crlf then ['\r', '\n'] else [text[n - 1]]
  }

  function WriteText(text: string, crlf: bool): string { WriteUpTo(text, crlf, |text|) }

  ghost predicate NoReturn(s: string) { forall i :: 0 <= i < |s| ==> s[i] != '\r' }

  lemma {:induction false} ReadHasNoReturn(raw: string, n: nat)
    requires n <= |raw|
    ensures NoReturn(ReadUpTo(raw, n))
  {
    if n > 0 { ReadHasNoReturn(raw, n - 1); }
  }

  lemma {:induction false} ReadPrefix(raw: string, more: string, n: nat)
    requires n <= |raw|
    ensures ReadUpTo(raw + more, n) == ReadUpTo(raw, n)
  {
    if n > 0 {
      ReadPrefix(raw, more, n - 1);
      assert (raw + more)[n - 1] == raw[n - 1];
      assert n > 1 ==> (raw + more)[n - 2] == raw[n - 2];
    }
  }

  lemma ReadSnoc(raw: string, c: char)
    ensures ReadText(raw + [c])
            == if c == '\n' && raw != [] && raw[|raw| - 1] == '\r' then ReadText(raw)
               else ReadText(raw) + [if c == '\r' then '\n' else c]
  {
    ReadPrefix(raw, [c], |raw|);
    assert (raw + [c])[|raw|] == c;
    assert raw != [] ==> (raw + [c])[|raw| - 1] == raw[|raw| - 1];
  }

  lemma ReadEnding(raw: string)
    requires raw == [] || raw[|raw| - 1] != '\r'
    ensures ReadText(raw + ['\r', '\n']) == ReadText(raw) + ['\n']
  {
    ReadSnoc(raw, '\r');
    ReadSnoc(raw + ['\r'], '\n');
    assert raw + ['\r'] + ['\n'] == raw + ['\r', '\n'];
  }

  lemma {:induction false} ReadWritten(text: string, crlf: bool, n: nat)
    requires n <= |text| && NoReturn(text)
    ensures ReadText(WriteUpTo(text, crlf, n)) == text[..n]
    ensures var w := WriteUpTo(text, crlf, n); w == [] || w[|w| - 1] != '\r'
  {
    if n > 0 {
      ReadWritten(text, crlf, n - 1);
      assert text[..n] == text[..n - 1] + [text[n - 1]];
      if text[n - 1] == '\n' && crlf {
        ReadEnding(WriteUpTo(text, crlf, n - 1));
      } else {
        ReadSnoc(WriteUpTo(text, crlf, n - 1), text[n - 1]);
      }
    }
  }

  /** Whatever the platform's line ending, what was written is read back. */
  lemma WriteThenRead(text: string, crlf: bool)
    requires NoReturn(text)
    ensures ReadText(WriteText(text, crlf)) == text
  {
    ReadWritten(text, crlf, |text|);
    assert text[..|text|] == text;
  }

  // ---- the decision ----

  datatype Outcome = NoLane | Current | Updated(text: string)

  function Get(values: map<string, string>, key: string): string { if key in values then values[key] else "" }

  predicate IsOn(value: string) { Lower(Strip(value)) in TRUE_VALUES }

  predicate LaneEnabled(values: map<string, string>) {
    IsOn(Get(values, "MESH_ARTI_ENABLED")) || IsOn(Get(values, "MESH_RNS_ENABLED"))
  }

  function Lines(text: string): seq<string> { SplitLines(text, IsBreak) }

  function Read(text: string): map<string, string> { Values(Lines(text), EnvFormat("")) }

  predicate PinIsCurrent(values: map<string, string>, digest: string) { Lower(Strip(Get(values, PIN_KEY))) == digest }

  function UpdatedText(lines: seq<string>, digest: string): string {
    JoinLines(Refreshed(lines, EnvFormat(digest)), '\n')
  }

  function DecideBy(lines: seq<string>, values: map<string, string>, digest: string): Outcome {
    if PIN_KEY !in values && !LaneEnabled(values) then NoLane
    else if PinIsCurrent(values, digest) then Current
    else Updated(UpdatedText(lines, digest))
  }

  /** `main`, for a file that reads as `text` and a library with that digest. */
  function Decide(text: string, digest: string): Outcome { DecideBy(Lines(text), Read(text), digest) }

  predicate HasReturnFeed(text: string) {
    exists i :: 0 <= i < |text| - 1 && text[i] == '\r' && text[i + 1] == '\n'
  }

  lemma ReadHasNoReturnFeed(raw: string)
    ensures !HasReturnFeed(ReadText(raw))
  {
    ReadHasNoReturn(raw, |raw|);
  }

  /** The file is read as text, so the branch that keeps carriage returns is never taken. */
  method Refresh(raw: string, digest: string, crlf: bool) returns (outcome: Outcome, written: string)
    ensures outcome == Decide(ReadText(raw), digest)
    ensures written == if outcome.Updated? then WriteText(outcome.text, crlf) else raw
  {
    var text := ReadText(raw);
    ReadHasNoReturnFeed(raw);
    if HasReturnFeed(text) {
      assert false;
    }
    outcome := RefreshLines(SplitLines(text, IsBreak), digest);
    written := if outcome.Updated? then WriteText(outcome.text, crlf) else raw;
  }

  method RefreshLines(lines: seq<string>, digest: string) returns (outcome: Outcome)
    ensures outcome == DecideBy(lines, Values(lines, EnvFormat("")), digest)
  {
    var values := ParseLines(lines, EnvFormat(""));
    if PIN_KEY !in values && !LaneEnabled(values) { return NoLane; }
    if PinIsCurrent(values, digest) { return Current; }
    var updated, replaced := ReplaceOrAppend(lines, EnvFormat(digest));
    outcome := Updated(JoinLines(updated, '\n'));
  }

  predicate IsYes(word: string) {
    word == "1" || word == "true" || word == "yes" || word == "on" || word == "allow" || word == "enabled"
  }

  lemma YesWords(word: string)
    ensures word in TRUE_VALUES <==> IsYes(word)
  {
  }

  /** The value of a lane, trimmed and in lower case, is one of the six words for yes. */
  predicate SaysYes(value: string) {
    IsYes(Lower(Strip(value)))
  }

  /** Some line assigns the pin. */
  ghost predicate IsPinned(text: string) { exists i :: 0 <= i < |Lines(text)| && IsPin(Lines(text)[i]) }

  /** The key has a value that says yes. */
  predicate IsEnabled(values: map<string, string>, key: string) { key in values && SaysYes(values[key]) }

  lemma YesIsOn(value: string)
    ensures IsOn(value) <==> SaysYes(value)
  {
    YesWords(Lower(Strip(value)));
  }

  lemma EmptyIsOff(value: string)
    requires value == ""
    ensures !SaysYes(value) && Lower(Strip(value)) == ""
  {
    assert Strip(value) == "" && Lower(value) == "";
  }

  lemma EnabledIff(values: map<string, string>, key: string)
    ensures IsOn(Get(values, key)) <==> IsEnabled(values, key)
  {
    YesIsOn(Get(values, key));
    if key !in values { EmptyIsOff(Get(values, key)); }
  }

  /** One of the two lanes says yes. */
  predicate SomeLane(values: map<string, string>) {
    IsEnabled(values, "MESH_ARTI_ENABLED") || IsEnabled(values, "MESH_RNS_ENABLED")
  }

  lemma LaneIff(values: map<string, string>)
    ensures LaneEnabled(values) <==> SomeLane(values)
  {
    EnabledIff(values, "MESH_ARTI_ENABLED");
    EnabledIff(values, "MESH_RNS_ENABLED");
  }

  /** The pin's value, trimmed and in lower case, is the digest. */
  predicate Matches(values: map<string, string>, digest: string) {
    PIN_KEY in values && Lower(Strip(values[PIN_KEY])) == digest
  }

  lemma CurrentIff(values: map<string, string>, digest: string)
    requires digest != ""
    ensures PinIsCurrent(values, digest) <==> Matches(values, digest)
  {
    if PIN_KEY !in values { EmptyIsOff(Get(values, PIN_KEY)); }
  }

  /** Nothing is done for want of a lane exactly if no line has a pin and neither lane says yes; otherwise the file is
      current exactly if the pin's last value matches the digest; and in every other case it is rewritten. */
  lemma DecisionIff(text: string, digest: string)
    requires digest != ""
    ensures Decide(text, digest) == NoLane <==> !IsPinned(text) && !SomeLane(Read(text))
    ensures Decide(text, digest) == Current <==> Matches(Read(text), digest)
  {
    PinnedIff(text);
    DecideByIff(Lines(text), Read(text), digest);
  }

  lemma DecideByIff(lines: seq<string>, values: map<string, string>, digest: string)
    requires digest != ""
    ensures DecideBy(lines, values, digest) == NoLane <==> PIN_KEY !in values && !SomeLane(values)
    ensures DecideBy(lines, values, digest) == Current <==> Matches(values, digest)
  {
    LaneIff(values);
    CurrentIff(values, digest);
  }

  lemma PinnedIff(text: string)
    ensures IsPinned(text) <==> PIN_KEY in Read(text)
  {
    var lines, f := Lines(text), EnvFormat("");
    LastAssignmentWins(lines, f, PIN_KEY, |lines|);
    forall i | 0 <= i < |lines|
      ensures IsPin(lines[i]) <==> f.parse(lines[i]).Some? && f.parse(lines[i]).value.0 == PIN_KEY
    {
      PatternsAgree(lines[i]);
    }
  }

  // ---- what a refresh achieves ----

  lemma {:induction false} SameValues<L, K, V>(lines: seq<L>, f: Format<L, K, V>, g: Format<L, K, V>, n: nat)
    requires n <= |lines| && f.parse == g.parse
    ensures ValuesUpTo(lines, f, n) == ValuesUpTo(lines, g, n)
  {
    if n > 0 { SameValues(lines, f, g, n - 1); }
  }

  lemma HexHasNoBreaks(digest: string)
    requires IsDigest(digest)
    ensures NoBreaks(PinLine(digest), IsBreak)
  {
    forall i | 0 <= i < |digest| ensures !IsBreak(digest[i]) { assert IsHex(digest[i]); }
    KeyHasNoBreaks(PIN_KEY);
  }

  lemma KeyHasNoBreaks(key: string)
    requires key == PIN_KEY
    ensures NoBreaks(key, IsBreak)
  {
    PinIsKey();
    forall i | 0 <= i < |key| ensures !IsBreak(key[i]) { assert InKey(key[i]); }
  }

  /** Splitting the written text gives the refreshed lines. */
  lemma WrittenLines(text: string, digest: string)
    requires IsDigest(digest)
    ensures var out := Refreshed(Lines(text), EnvFormat(digest)); Lines(JoinLines(out, '\n')) == out
  {
    SplitHaveNoBreaks(text, IsBreak);
    HexHasNoBreaks(digest);
    RefreshedHaveNoBreaks(Lines(text), EnvFormat(digest), IsBreak);
    SplitJoined(Refreshed(Lines(text), EnvFormat(digest)), '\n', IsBreak);
  }

  lemma UpdatedReads(text: string, digest: string)
    requires IsDigest(digest)
    ensures Read(UpdatedText(Lines(text), digest)) == Read(text)[PIN_KEY := digest]
  {
    var f, after := EnvFormat(digest), UpdatedText(Lines(text), digest);
    FormatAgrees(digest);
    WrittenLines(text, digest);
    RefreshedValues(Lines(text), f);
    SameValues(Lines(text), f, EnvFormat(""), |Lines(text)|);
    SameValues(Lines(after), f, EnvFormat(""), |Lines(after)|);
  }

  lemma PinnedIsCurrent(values: map<string, string>, lines: seq<string>, digest: string)
    requires IsDigest(digest)
    ensures DecideBy(lines, values[PIN_KEY := digest], digest) == Current
  {
    DigestIsClean(digest);
  }

  lemma UpdatedOthers(text: string, digest: string)
    requires IsDigest(digest)
    ensures Others(Lines(UpdatedText(Lines(text), digest)), EnvFormat(digest))
            == Others(Lines(text), EnvFormat(digest)) + Separator(text, digest)
  {
    FormatAgrees(digest);
    WrittenLines(text, digest);
    RefreshedOthers(Lines(text), EnvFormat(digest));
  }

  /** The blank line that may be put before a new pin. */
  function Separator(text: string, digest: string): (lines: seq<string>)
    ensures lines == [] || lines == [""]
  {
    if Appendix(Lines(text), EnvFormat(digest)) == ["", PinLine(digest)] then [""] else []
  }

  lemma UpdateIsUpdatedText(text: string, digest: string, after: string)
    requires Decide(text, digest) == Updated(after)
    ensures after == UpdatedText(Lines(text), digest)
  {
  }

  lemma RerunIsCurrent(text: string, digest: string, after: string)
    requires IsDigest(digest) && after == UpdatedText(Lines(text), digest)
    ensures Decide(after, digest) == Current
  {
    UpdatedReads(text, digest);
    PinnedIsCurrent(Read(text), Lines(after), digest);
  }

  /** What is written holds no carriage return, so reading it back gives it again. */
  lemma WrittenIsReadBack(text: string, digest: string, crlf: bool)
    requires IsDigest(digest)
    ensures var after := UpdatedText(Lines(text), digest); ReadText(WriteText(after, crlf)) == after
  {
    var lines := Refreshed(Lines(text), EnvFormat(digest));
    SplitHaveNoBreaks(text, IsBreak);
    HexHasNoBreaks(digest);
    RefreshedHaveNoBreaks(Lines(text), EnvFormat(digest), IsBreak);
    forall i | 0 <= i < |lines| ensures '\r' !in lines[i] { NoBreakNoReturn(lines[i]); }
    JoinLacks(lines, '\n', '\r');
    WriteThenRead(UpdatedText(Lines(text), digest), crlf);
  }

  lemma NoBreakNoReturn(line: string)
    requires NoBreaks(line, IsBreak)
    ensures '\r' !in line
  {
    assert IsBreak('\r');
  }

  /** After an update the file on disk, whatever the platform's line ending, reads as before, except that the pin
      is the digest; a second run finds it current; and the other lines are where they were. */
  lemma RefreshSettles(text: string, digest: string, after: string, crlf: bool)
    requires IsDigest(digest) && Decide(text, digest) == Updated(after)
    ensures ReadText(WriteText(after, crlf)) == after
    ensures Read(after) == Read(text)[PIN_KEY := digest]
    ensures Decide(ReadText(WriteText(after, crlf)), digest) == Current
    ensures Others(Lines(after), EnvFormat(digest)) == Others(Lines(text), EnvFormat(digest)) + Separator(text, digest)
  {
    UpdateIsUpdatedText(text, digest, after);
    WrittenIsReadBack(text, digest, crlf);
    UpdatedReads(text, digest);
    RerunIsCurrent(text, digest, after);
    UpdatedOthers(text, digest);
  }
}
