/** The current engine's pure logic (main.js): how the `data` handler cuts the receive buffer
    into lines, how `processShureCommand` recognises a report and which variables it writes,
    and the brace-stripping `trimShureString`. The class in module P300Module runs these
    steps on its fields; this module states what they compute. */
module P300Protocol {
  import opened JsString
  import opened DeviceState
  import opened Framing

  /** The receive buffer is flushed once it grows past this many characters. */
  const MaxBuffer: nat := 128000

  // ---------------------------------------------------------------- framing

  /** The line `buf.substring(1, i - 1)` cut from a buffer whose first segment is `g` (so `i`
      is `|g|`): the segment without its first and its last character, which on a `< … >`
      frame are the `<` and the space before `>`. The clamping and swapping of `substring`
      turn a one-character segment into itself and an empty one into the `>` after it. */
  function LineOfSegment(g: string): (line: string)
    ensures |g| >= 2 ==> line == g[1..|g| - 1]
    ensures |g| == 1 ==> line == g
    ensures |g| == 0 ==> line == ">"
  {
    Substring(g + ">", 1, |g| - 1)
  }

  /** `substring(1, i - 1)` only looks at the buffer up to its first `>`. */
  lemma LineAtFirstClose(g: string, t: string)
    requires '>' !in g
    ensures Substring(g + ">" + t, 1, |g| - 1) == LineOfSegment(g)
  {
    var b := g + ">" + t;
    assert b[..|g| + 1] == g + ">";
  }

  /** The lines cut from the segments `gs`, in order. */
  function Lines(gs: seq<string>): (ls: seq<string>)
    ensures |ls| == |gs|
    ensures forall k :: 0 <= k < |gs| ==> ls[k] == LineOfSegment(gs[k])
  {
    if gs == [] then [] else [LineOfSegment(gs[0])] + Lines(gs[1..])
  }

  /** No reply has been started or none has been ended: the handler waits for more data. */
  predicate Waiting(b: string) {
    IndexOf(b, '<') == -1 || IndexOf(b, '>') == -1
  }

  /** `if (end < start) buf = buf.slice(start)`: when the first `>` comes before the first `<`,
      the fragment in front of that `<` is dropped; otherwise nothing is. */
  function Resync(b: string): (r: string)
    requires !Waiting(b)
    ensures IsSuffix(r, b)
    ensures '<' !in b[..|b| - |r|]
    ensures IndexOf(b, '<') < IndexOf(b, '>') ==> r == b
    ensures r != b ==> r[0] == '<' && IndexOf(b, '>') < |b| - |r|
  {
    var start := IndexOf(b, '<');
    var end := IndexOf(b, '>');
    if end < start then b[start..] else b
  }

  /** What one `data` event does: the lines it emits, the receive buffer it leaves, and whether
      it flushed the buffer for growing past `MaxBuffer`. */
  datatype FeedResult = FeedResult(lines: seq<string>, buffer: string, overflow: bool)

  /** The `while` loop's work on a resynchronised buffer `r`: a line per segment, and the
      text after the last `>` kept. */
  function Framed(r: string): FeedResult {
    FeedResult(Lines(Segments(r)), Remainder(r), false)
  }

  /** The `data` handler on receive buffer `buf` and incoming `chunk`. */
  function Feed(buf: string, chunk: string): FeedResult {
    var b := buf + chunk;
    if |b| > MaxBuffer then FeedResult([], "", true)
    else if Waiting(b) then FeedResult([], b, false)
    else Framed(Resync(b))
  }

  /** The buffer never exceeds the bound: an over-long one is flushed, one of exactly
      `MaxBuffer` characters is kept and framed; a kept buffer is a suffix of the input. */
  lemma FeedBounded(buf: string, chunk: string)
    ensures Feed(buf, chunk).overflow <==> |buf + chunk| > MaxBuffer
    ensures Feed(buf, chunk).overflow ==> Feed(buf, chunk).lines == [] && Feed(buf, chunk).buffer == ""
    ensures |Feed(buf, chunk).buffer| <= MaxBuffer
    ensures !Feed(buf, chunk).overflow ==> IsSuffix(Feed(buf, chunk).buffer, buf + chunk)
  {
    var b := buf + chunk;
    if |b| <= MaxBuffer {
      if Waiting(b) {
        assert b[0..] == b;
      } else {
        var r := Resync(b);
        RemainderSuffix(r);
        SuffixTrans(Remainder(r), r, b);
      }
    }
  }

  /** Without a `<` or without a `>` nothing is emitted and the chunk is only appended. */
  lemma FeedWaits(buf: string, chunk: string)
    requires |buf + chunk| <= MaxBuffer && Waiting(buf + chunk)
    ensures Feed(buf, chunk) == FeedResult([], buf + chunk, false)
  {
  }

  /** On the normal path the resynchronised buffer is cut at every `>`: one line per `>`, each
      line taken from its segment, and the buffer left holding the text after the last `>`,
      which contains none. The segments with their `>`s and the buffer left spell the
      resynchronised buffer exactly. */
  lemma {:induction false} FeedFrames(buf: string, chunk: string)
    requires |buf + chunk| <= MaxBuffer && !Waiting(buf + chunk)
    ensures var r := Resync(buf + chunk); var res := Feed(buf, chunk);
      && |res.lines| == Count(r, '>')
      && (forall k :: 0 <= k < |res.lines| ==> res.lines[k] == LineOfSegment(Segments(r)[k]))
      && Terminated(Segments(r)) + res.buffer == r
      && '>' !in res.buffer
  {
    var r := Resync(buf + chunk);
    Partition(r);
    RemainderOpen(r);
    SegmentsOpen(r);
    SegmentCount(r);
  }

  // ---------------------------------------------------------------- report recognition

  predicate IsFieldChar(c: char) { 'A' <= c <= 'Z' || c == '_' }

  /** What `([A-Z_]+)` accepts. */
  predicate IsFieldName(f: string) {
    f != [] && forall k :: 0 <= k < |f| ==> IsFieldChar(f[k])
  }

  /** What `(.+)$` accepts: one character or more, none of them a line terminator. */
  predicate IsRestOfLine(v: string) {
    v != [] && forall k :: 0 <= k < |v| ==> !IsLineTerminator(v[k])
  }

  /** The longest prefix of `s` made of field-name characters. */
  function FieldPrefix(s: string): (f: string)
    ensures |f| <= |s| && f == s[..|f|]
    ensures forall k :: 0 <= k < |f| ==> IsFieldChar(f[k])
    ensures |f| < |s| ==> !IsFieldChar(s[|f|])
  {
    if s != [] && IsFieldChar(s[0]) then [s[0]] + FieldPrefix(s[1..]) else ""
  }

  lemma FieldPrefixOf(f: string, rest: string)
    requires forall k :: 0 <= k < |f| ==> IsFieldChar(f[k])
    requires rest == [] || !IsFieldChar(rest[0])
    ensures FieldPrefix(f + rest) == f
  {
    assert (f + rest)[..|f|] == f;
  }

  /** `([A-Z_]+) (.+)$`, the tail both report patterns share: the field and the value. */
  function MatchFieldValue(t: string): (m: Option<(string, string)>)
    ensures m.Some? ==> t == m.value.0 + " " + m.value.1
    ensures m.Some? ==> IsFieldName(m.value.0) && IsRestOfLine(m.value.1)
  {
    var f := FieldPrefix(t);
    var after := t[|f|..];
    if f != [] && after != [] && after[0] == ' ' && IsRestOfLine(after[1..]) then
      assert t == f + after && after == " " + after[1..];
      Some((f, after[1..]))
    else None
  }

  /** Every `<field> <value>` tail matches, with exactly that field and value. */
  lemma MatchFieldValueAccepts(f: string, v: string)
    requires IsFieldName(f) && IsRestOfLine(v)
    ensures MatchFieldValue(f + " " + v) == Some((f, v))
  {
    var t := f + " " + v;
    assert t == f + (" " + v);
    FieldPrefixOf(f, " " + v);
    assert t[|f|..] == " " + v;
  }

  /** `command.match(/^REP ([A-Z_]+) (.+)$/)`: the field and the value, or None for a null
      match. */
  function MatchGlobal(s: string): (m: Option<(string, string)>)
    ensures m.Some? ==> s == "REP " + m.value.0 + " " + m.value.1
    ensures m.Some? ==> IsFieldName(m.value.0) && IsRestOfLine(m.value.1)
  {
    if !HasPrefix(s, "REP ") then None
    else
      assert s == "REP " + s[4..];
      MatchFieldValue(s[4..])
  }

  /** Every `REP <field> <value>` line matches, with exactly that field and value. */
  lemma MatchGlobalAccepts(f: string, v: string)
    requires IsFieldName(f) && IsRestOfLine(v)
    ensures MatchGlobal("REP " + f + " " + v) == Some((f, v))
  {
    var s := "REP " + f + " " + v;
    assert s[..4] == "REP " && s[4..] == f + " " + v;
    MatchFieldValueAccepts(f, v);
  }

  /** `command.match(/^REP (\d+) ([A-Z_]+) (.+)$/)`: the channel digits, the field and the
      value, or None for a null match. */
  function MatchChannel(s: string): (m: Option<(string, string, string)>)
    ensures m.Some? ==> s == "REP " + m.value.0 + " " + m.value.1 + " " + m.value.2
    ensures m.Some? ==> m.value.0 != [] && AllDigits(m.value.0)
    ensures m.Some? ==> IsFieldName(m.value.1) && IsRestOfLine(m.value.2)
  {
    if !HasPrefix(s, "REP ") then None
    else
      var rest := s[4..];
      var d := DigitPrefix(rest);
      var after := rest[|d|..];
      if d != [] && after != [] && after[0] == ' ' then
        match MatchFieldValue(after[1..])
        case None => None
        case Some((f, v)) =>
          ChannelLineParts(s, d, f, v);
          Some((d, f, v))
      else None
  }

  /** A line read back from its parts: `REP `, the digits, a space, then the field-value tail. */
  lemma ChannelLineParts(s: string, d: string, f: string, v: string)
    requires HasPrefix(s, "REP ") && 4 + |d| < |s|
    requires s[4..][..|d|] == d && s[4..][|d|..][0] == ' ' && s[4..][|d|..][1..] == f + " " + v
    ensures s == "REP " + d + " " + f + " " + v
  {
    var rest := s[4..];
    var after := rest[|d|..];
    Rejoin(s, 4);
    Rejoin(rest, |d|);
    Rejoin(after, 1);
    assert after[..1] == " ";
    ReportShape(d, f, v);
  }

  /** A string is its first `n` characters followed by the rest. */
  lemma Rejoin(s: string, n: nat)
    requires n <= |s|
    ensures s == s[..n] + s[n..]
  {
  }

  lemma ReportShape(d: string, f: string, v: string)
    ensures "REP " + (d + (" " + (f + " " + v))) == "REP " + d + " " + f + " " + v
  {
  }

  /** Every `REP <digits> <field> <value>` line matches, with exactly those parts. */
  lemma MatchChannelAccepts(d: string, f: string, v: string)
    requires d != [] && AllDigits(d) && IsFieldName(f) && IsRestOfLine(v)
    ensures MatchChannel("REP " + d + " " + f + " " + v) == Some((d, f, v))
  {
    var s := "REP " + d + " " + f + " " + v;
    var tail := f + " " + v;
    assert s[..4] == "REP " && s[4..] == d + (" " + tail);
    DigitPrefixOf(d, " " + tail);
    assert s[4..][|d|..] == " " + tail;
    assert (" " + tail)[1..] == tail;
    MatchFieldValueAccepts(f, v);
  }

  /** A recognised report: `channel` is `parseInt` of the two characters after `REP `
      (None for NaN), then the field name and the value the pattern captured. */
  datatype Report = Report(channel: Option<int>, field: string, value: string)

  /** The recognition step of `processShureCommand`: a line starting with `REP`, matched
      against the channel pattern when the two characters after `REP ` parse as a number and
      against the global pattern otherwise; None where the handler returns early. */
  function ParseReport(command: string): (r: Option<Report>)
    ensures r.Some? ==> IsFieldName(r.value.field) && IsRestOfLine(r.value.value)
    ensures r.Some? && r.value.channel.None? ==> command == "REP " + r.value.field + " " + r.value.value
  {
    if Substring(command, 0, 3) != "REP" then None
    else
      var channel := ParseInt(Substr(command, 4, 2));
      if channel.None? then
        match MatchGlobal(command)
        case None => None
        case Some((f, v)) => Some(Report(None, f, v))
      else
        match MatchChannel(command)
        case None => None
        case Some((_, f, v)) => Some(Report(channel, f, v))
  }

  /** Every channel report read is `REP <digits> <field> <value>`, filed under the channel
      its first two digits spell: the converse of `ParseChannel`. */
  lemma ParsedChannelReport(command: string) returns (d: string)
    requires ParseReport(command).Some? && ParseReport(command).value.channel.Some?
    ensures d != [] && AllDigits(d)
    ensures var rep := ParseReport(command).value;
      command == "REP " + d + " " + rep.field + " " + rep.value && rep.channel == Some(ChannelOf(d))
  {
    var channel := ParseInt(Substr(command, 4, 2));
    assert channel.Some?;
    var m := MatchChannel(command).value;
    assert ParseReport(command).value == Report(channel, m.1, m.2);
    d := m.0;
    var head := "REP " + d + " ";
    assert command == head + m.1 + " " + m.2;
    AppendAssoc(head + m.1, " ", m.2);
    AppendAssoc(head, m.1, " " + m.2);
    ChannelDigits(d, m.1 + " " + m.2);
  }

  /** The channel number a channel report is filed under: the value of its first two digits. */
  function ChannelOf(d: string): nat
    requires d != []
  {
    DecimalValue(if |d| >= 2 then d[..2] else d)
  }

  /** `REP <field> <value>` is a global report of that field and value. */
  lemma ParseGlobal(f: string, v: string)
    requires IsFieldName(f) && IsRestOfLine(v)
    ensures ParseReport("REP " + f + " " + v) == Some(Report(None, f, v))
  {
    var s := "REP " + f + " " + v;
    assert s[..3] == "REP";
    var p := Substr(s, 4, 2);
    assert p[0] == f[0];
    ParseIntNaN(p);
    MatchGlobalAccepts(f, v);
  }

  /** `REP <digits> <field> <value>` is a report for the channel its first two digits spell:
      `REP 123 CHAN_NAME x` is filed under channel 12, not 123. */
  lemma ParseChannel(d: string, f: string, v: string)
    requires d != [] && AllDigits(d) && IsFieldName(f) && IsRestOfLine(v)
    ensures ParseReport("REP " + d + " " + f + " " + v) == Some(Report(Some(ChannelOf(d)), f, v))
  {
    assert ("REP " + d + " " + f + " " + v)[..3] == "REP";
    assert "REP " + d + " " + f + " " + v == "REP " + d + " " + (f + " " + v);
    ChannelDigits(d, f + " " + v);
    MatchChannelAccepts(d, f, v);
  }

  /** The two characters after `REP ` parse to the channel the leading digits spell. */
  lemma ChannelDigits(d: string, w: string)
    requires d != [] && AllDigits(d)
    ensures ParseInt(Substr("REP " + d + " " + w, 4, 2)) == Some(ChannelOf(d))
  {
    var p := Substr("REP " + d + " " + w, 4, 2);
    if |d| >= 2 {
      assert p == d[..2] + "";
      ParseIntDigits(d[..2], "");
    } else {
      assert p == d + " ";
      ParseIntDigits(d, " ");
    }
  }

  // ---------------------------------------------------------------- effects of a report

  /** `/^\{(.+?)\s*\}$/`: a `{`, one character or more, a `}`. */
  predicate Braced(s: string) {
    |s| >= 3 && s[0] == '{' && s[|s| - 1] == '}'
  }

  /** `trimShureString`: `s.replace(/^\{(.+?)\s*\}$/, "$1")`. The lazy group takes the inner
      text up to its trailing white space but at least one character; the match fails (and
      `s` comes back unchanged) when that part holds a line terminator. */
  function TrimShureString(s: string): (r: string)
    ensures |r| <= |s|
    ensures !Braced(s) ==> r == s
    ensures r != s ==> Braced(s) && r != [] && 1 + |r| < |s| && r == s[1..1 + |r|]
    ensures r != s ==> forall k :: 1 + |r| <= k < |s| - 1 ==> IsSpace(s[k])
    ensures r != s && |r| > 1 ==> !IsSpace(r[|r| - 1])
    ensures Braced(s) && (forall j | 0 <= j < |s| :: !IsLineTerminator(s[j])) ==> r != s
    ensures Braced(s)
      && (forall j | 1 <= j < |s| - 1 && (j == 1 || j <= |TrimEnd(s[1..|s| - 1])|) :: !IsLineTerminator(s[j]))
      ==> r != s
  {
    if !Braced(s) then s
    else
      var inner := s[1..|s| - 1];
      TrimEndPrefix(inner);
      var k := if |TrimEnd(inner)| >= 1 then |TrimEnd(inner)| else 1;
      assert forall j :: 1 <= j < |s| - 1 ==> s[j] == inner[j - 1];
      if forall j :: 0 <= j < k ==> !IsLineTerminator(inner[j]) then inner[..k] else s
  }

  /** The device wraps names in braces padded with spaces; stripping recovers the name, for
      any name of one line that does not end in white space (or is one character long). */
  lemma TrimShureStringUnwraps(v: string, pad: string)
    requires IsRestOfLine(v) && (|v| == 1 || !IsSpace(v[|v| - 1]))
    requires forall k :: 0 <= k < |pad| ==> IsSpace(pad[k])
    ensures TrimShureString("{" + v + pad + "}") == v
  {
    var s := "{" + v + pad + "}";
    assert Braced(s);
    var inner := s[1..|s| - 1];
    assert inner == v + pad;
    var k := if |TrimEnd(inner)| >= 1 then |TrimEnd(inner)| else 1;
    assert k == |v| by {
      if !IsSpace(v[|v| - 1]) {
        TrimEndPadding(v, pad);
      } else {
        assert forall j :: 0 <= j < |inner| ==> IsSpace(inner[j]);
        TrimEndPrefix(inner);
        assert |TrimEnd(inner)| == 0;
      }
    }
    assert inner[..k] == v;
    assert forall j :: 0 <= j < k ==> !IsLineTerminator(inner[j]) by {
      forall j | 0 <= j < k ensures !IsLineTerminator(inner[j]) {
        assert inner[j] == v[j];
      }
    }
  }

  /** A line terminator inside the part the lazy group must take (the first inner
      character, or any before the last non-blank one) defeats the match: the text comes
      back unchanged. */
  lemma TrimShureStringKeepsMultiline(s: string, j: nat, m: nat)
    requires Braced(s) && 1 <= j < |s| - 1 && IsLineTerminator(s[j])
    requires j == 1 || (j < m < |s| - 1 && !IsSpace(s[m]))
    ensures TrimShureString(s) == s
  {
    var inner := s[1..|s| - 1];
    var k := if |TrimEnd(inner)| >= 1 then |TrimEnd(inner)| else 1;
    if j != 1 {
      assert inner[m - 1] == s[m];
      assert m - 1 < |TrimEnd(inner)|;
    }
    assert inner[j - 1] == s[j];
    assert j - 1 < k && IsLineTerminator(inner[j - 1]);
  }

  /** A line terminator in the padding does not stop the match: `\s*` takes it, so
      `{a` + newline + `}` strips to `a`. */
  lemma TrimShureStringNewlinePadding()
    ensures TrimShureString("{a\n}") == "a"
  {
    TrimShureStringUnwraps("a", "\n");
    assert "{" + "a" + "\n" + "}" == "{a\n}";
  }

  /** An all-blank inner text keeps its first character: `{ }` becomes `" "`. */
  lemma TrimShureStringBlank(s: string)
    requires Braced(s) && !IsLineTerminator(s[1])
    requires forall j :: 1 <= j < |s| - 1 ==> IsSpace(s[j])
    ensures TrimShureString(s) == [s[1]]
  {
    var inner := s[1..|s| - 1];
    assert forall j :: 0 <= j < |inner| ==> IsSpace(inner[j]);
    if TrimEnd(inner) != [] {
      TrimEndPrefix(inner);
      assert false;
    }
    assert inner[..1] == [s[1]];
  }

  /** The variable a report of field `f` is stored under (the `switch` on the field name).
      Channel keys append the channel number as JavaScript prints it, `NaN` included. */
  function FieldKey(f: string, channel: Option<int>): string {
    if f == "MODEL" then "model"
    else if f == "SERIAL_NUM" then "serial_number"
    else if f == "FW_VER" then "firmware_version"
    else if f == "DEVICE_ID" then "deviceid"
    else if f == "CHAN_NAME" then "channel_name_" + NumberToString(channel)
    else if f == "AUDIO_MUTE" then "channel_mute_" + NumberToString(channel)
    else if f == "FLASH" then "flash_state"
    else "preset_active"
  }

  /** The value a report of field `f` with text `v` stores: brace-stripped for the names and
      identities, the raw text for mute and flash state, `parseInt` of it for the preset. */
  function StoredValue(f: string, v: string): Value {
    if f == "AUDIO_MUTE" || f == "FLASH" then Str(v)
    else if f == "PRESET" then FromNumber(ParseInt(v))
    else Str(TrimShureString(v))
  }

  /** The variable writes one recognised report causes: one for a known field, none else. */
  function ReportWrites(r: Report): (ws: seq<Write>)
    ensures |ws| == (if KnownField(r.field) then 1 else 0)
  {
    if KnownField(r.field) then [Write(FieldKey(r.field, r.channel), StoredValue(r.field, r.value))] else []
  }

  /** The feedbacks a recognised report asks the host to re-evaluate. */
  function ReportChecks(r: Report): (ids: seq<string>)
    ensures |ids| <= 1
  {
    if r.field == "FLASH" then ["flash_state"]
    else if r.field == "PRESET" then ["preset_active"]
    else []
  }

  /** The field names the handler acts on. */
  predicate KnownField(f: string) {
    || f == "MODEL" || f == "SERIAL_NUM" || f == "FW_VER" || f == "DEVICE_ID"
    || f == "CHAN_NAME" || f == "AUDIO_MUTE" || f == "FLASH" || f == "PRESET"
  }

  /** Every write `processShureCommand(command)` makes, in order. */
  function Writes(command: string): (ws: seq<Write>)
    ensures 1 <= |ws| <= 2
    ensures ws[0] == Write("last_command_received", Str(command))
    ensures |ws| == 2 <==> ParseReport(command).Some? && KnownField(ParseReport(command).value.field)
  {
    [Write("last_command_received", Str(command))]
      + match ParseReport(command) case None => [] case Some(r) => ReportWrites(r)
  }

  /** Every `checkFeedbacks` id `processShureCommand(command)` passes, in order. */
  function Checks(command: string): (ids: seq<string>)
    ensures |ids| <= 1
  {
    var report := ParseReport(command);
    if report.None? then [] else ReportChecks(report.value)
  }

  /** The writes and feedback checks of a run of received lines, each trimmed first. */
  function LinesWrites(lines: seq<string>): seq<Write> {
    if lines == [] then [] else LinesWrites(lines[..|lines| - 1]) + Writes(Trim(lines[|lines| - 1]))
  }

  function LinesChecks(lines: seq<string>): seq<string> {
    if lines == [] then [] else LinesChecks(lines[..|lines| - 1]) + Checks(Trim(lines[|lines| - 1]))
  }

  /** The `data` handler's loop with `b` left in the buffer: the lines already handled,
      followed by the lines still in `b`, are all the lines of `r`, and the final buffer is
      the same from either place. */
  ghost predicate Draining(b: string, r: string, lines: seq<string>) {
    lines + Lines(Segments(b)) == Lines(Segments(r)) && Remainder(b) == Remainder(r)
  }

  /** One turn of the `data` handler's loop keeps the lines still to come and the final
      buffer: the cut line joins those already handled. */
  lemma DrainStep(lines: seq<string>, b: string, r: string)
    requires IndexOf(b, '>') != -1 && Draining(b, r, lines)
    ensures var i := IndexOf(b, '>'); var t := b[i + 1..];
      Draining(t, r, lines + [Substring(b, 1, i - 1)]) && |t| < |b|
  {
    var i := IndexOf(b, '>');
    var t := b[i + 1..];
    CutLine(b);
    ShiftLine(lines, Substring(b, 1, i - 1), Lines(Segments(b)), Lines(Segments(t)), Lines(Segments(r)));
  }

  /** Cutting at the first `>` splits off the first line and keeps the remainder. */
  lemma CutLine(b: string)
    requires IndexOf(b, '>') != -1
    ensures var i := IndexOf(b, '>'); var t := b[i + 1..];
      && Lines(Segments(b)) == [Substring(b, 1, i - 1)] + Lines(Segments(t))
      && Remainder(b) == Remainder(t) && |t| < |b|
  {
    var g, t := Cut(b);
    LineAtFirstClose(g, t);
    LinesCons(g, Segments(t));
  }

  lemma ShiftLine(done: seq<string>, x: string, pending: seq<string>, rest: seq<string>, all: seq<string>)
    requires done + pending == all && pending == [x] + rest
    ensures (done + [x]) + rest == all
  {
    assert done + ([x] + rest) == (done + [x]) + rest;
  }

  /** One more line adds its writes and checks at the end. */
  lemma LinesSnoc(lines: seq<string>, line: string)
    ensures LinesWrites(lines + [line]) == LinesWrites(lines) + Writes(Trim(line))
    ensures LinesChecks(lines + [line]) == LinesChecks(lines) + Checks(Trim(line))
  {
    assert (lines + [line])[..|lines|] == lines;
  }

  /** The first segment gives the first line. */
  lemma LinesCons(g: string, gs: seq<string>)
    ensures Lines([g] + gs) == [LineOfSegment(g)] + Lines(gs)
  {
    assert ([g] + gs)[1..] == gs;
  }

  // ---------------------------------------------------------------- what a report does to the store

  /** No report writes `last_command_received`, so after any line it holds that line. */
  lemma {:induction false} CommandRecorded(state: map<string, Value>, command: string)
    ensures Get(Apply(state, Writes(command)), "last_command_received") == Str(command)
  {
    var ws := Writes(command);
    if |ws| == 2 {
      var r := ParseReport(command).value;
      assert ws[1] == ReportWrites(r)[0];
      FieldKeyNotCommand(r.field, r.channel);
    }
  }

  /** No field's variable is `last_command_received`. */
  lemma FieldKeyNotCommand(f: string, channel: Option<int>)
    ensures FieldKey(f, channel) != "last_command_received"
  {
    assert ("channel_name_" + NumberToString(channel))[0] == 'c';
    assert ("channel_mute_" + NumberToString(channel))[0] == 'c';
  }

  /** A line that is not a report, does not match either pattern, or names a field the
      handler does not know changes no variable but `last_command_received`, and asks for no
      feedback. */
  lemma IgnoredLeavesStore(state: map<string, Value>, command: string, key: string)
    requires key != "last_command_received"
    requires ParseReport(command).None? || !KnownField(ParseReport(command).value.field)
    ensures Get(Apply(state, Writes(command)), key) == Get(state, key)
    ensures Checks(command) == []
  {
    ApplyUntouched(state, Writes(command), key);
  }

  /** A recognised report of a known field leaves its value under its field's key, and only
      FLASH and PRESET reports re-evaluate a feedback (the one named after their key). */
  lemma ReportApplied(state: map<string, Value>, command: string)
    requires ParseReport(command).Some? && KnownField(ParseReport(command).value.field)
    ensures var r := ParseReport(command).value;
      Get(Apply(state, Writes(command)), FieldKey(r.field, r.channel)) == StoredValue(r.field, r.value)
    ensures var r := ParseReport(command).value;
      Checks(command) == (if r.field == "FLASH" || r.field == "PRESET" then [FieldKey(r.field, r.channel)] else [])
  {
    ApplyLast(state, Writes(command));
  }

  /** A global report `REP <field> <value>` is stored under its field's key with no channel:
      a CHAN_NAME or AUDIO_MUTE report of this shape lands in a key ending in `NaN`. */
  lemma GlobalReportEffect(state: map<string, Value>, f: string, v: string)
    requires IsFieldName(f) && IsRestOfLine(v) && KnownField(f)
    ensures Get(Apply(state, Writes("REP " + f + " " + v)), FieldKey(f, None)) == StoredValue(f, v)
  {
    ParseGlobal(f, v);
    ReportApplied(state, "REP " + f + " " + v);
  }

  /** A channel report `REP <digits> <field> <value>` is stored under the channel its first
      two digits spell. */
  lemma ChannelReportEffect(state: map<string, Value>, d: string, f: string, v: string)
    requires d != [] && AllDigits(d) && IsFieldName(f) && IsRestOfLine(v) && KnownField(f)
    ensures Get(Apply(state, Writes("REP " + d + " " + f + " " + v)), FieldKey(f, Some(ChannelOf(d))))
      == StoredValue(f, v)
  {
    ParseChannel(d, f, v);
    ReportApplied(state, "REP " + d + " " + f + " " + v);
  }

  /** A channel number of two digits or more is filed under its first two. */
  lemma ChannelOfTwoDigits(d: string)
    requires |d| >= 2 && AllDigits(d)
    ensures ChannelOf(d) == 10 * DigitValue(d[0]) + DigitValue(d[1])
  {
    assert d[..2][..1] == d[..1] && d[..1][..0] == "" && d[..2][1] == d[1] && d[..1][0] == d[0];
    assert DecimalValue(d[..1]) == DigitValue(d[0]);
  }

  /** A channel number of more than two digits is cut to its first two: `REP 123 CHAN_NAME x`
      names channel 12. */
  lemma LongChannelTruncated(state: map<string, Value>, d: string, name: string)
    requires |d| >= 2 && AllDigits(d) && IsRestOfLine(name)
    ensures Get(Apply(state, Writes("REP " + d + " " + "CHAN_NAME" + " " + name)),
                "channel_name_" + NatToString(10 * DigitValue(d[0]) + DigitValue(d[1])))
      == Str(TrimShureString(name))
  {
    ChannelReportEffect(state, d, "CHAN_NAME", name);
    ChannelOfTwoDigits(d);
  }

  // ---------------------------------------------------------------- framing examples

  /** A buffer that starts with `<` and holds a `>` is framed as it stands. */
  lemma FeedFromOpen(b: string)
    requires |b| <= MaxBuffer && b != [] && b[0] == '<' && '>' in b
    ensures Feed("", b) == Framed(b)
  {
    assert "" + b == b;
    assert IndexOf(b, '<') == 0;
  }

  /** A segment's line is the segment without its first and last character. */
  lemma LineOfWrapped(a: char, t: string, z: char)
    ensures LineOfSegment([a] + t + [z]) == t
  {
    assert ([a] + t + [z])[1..|t| + 1] == t;
  }

  /** One `>`-free segment closed by `>` is cut as such and leaves nothing. */
  lemma OneSegment(g: string)
    requires '>' !in g
    ensures Segments(g + ">") == [g] && Remainder(g + ">") == ""
  {
    assert g + ">" == g + ">" + "";
    Unfold(g, "");
    NoClose("");
  }

  /** How a spaced frame `< t >` regroups. */
  lemma FrameShape(t: string)
    ensures "< " + t + " " == ['<'] + (" " + t) + [' ']
    ensures " < " + t + " " == [' '] + ("< " + t) + [' ']
    ensures "< " + t + " >" == ("< " + t + " ") + ">"
    ensures '>' !in t ==> '>' !in "< " + t + " " && '>' !in " < " + t + " "
  {
  }

  /** A buffer that starts with `<` and holds a `>` after its first segment. */
  lemma OpensAndCloses(g: string, t: string)
    requires g != [] && g[0] == '<'
    ensures (g + ">" + t)[0] == '<' && '>' in g + ">" + t
  {
    assert (g + ">" + t)[|g|] == '>';
  }

  /** A frame `< t >` whose text has no `>` is the line ` t`. */
  lemma SpacedFrame(t: string)
    requires '>' !in t
    ensures Framed("< " + t + " >") == FeedResult([" " + t], "", false)
  {
    FrameShape(t);
    LineOfWrapped('<', " " + t, ' ');
    OneSegment("< " + t + " ");
    assert Lines(["< " + t + " "]) == [" " + t];
  }

  /** Two `>`-free segments, each closed by `>`, are cut as such. */
  lemma TwoSegments(g2: string, g3: string)
    requires '>' !in g2 && '>' !in g3
    ensures Segments(g2 + ">" + (g3 + ">")) == [g2, g3]
  {
    Unfold(g2, g3 + ">");
    OneSegment(g3);
  }

  /** Three `>`-free segments, each closed by `>`, are cut as such. */
  lemma ThreeSegments(g1: string, g2: string, g3: string)
    requires '>' !in g1 && '>' !in g2 && '>' !in g3
    ensures Segments(g1 + ">" + (g2 + ">" + (g3 + ">"))) == [g1, g2, g3]
  {
    TwoSegments(g2, g3);
    Unfold(g1, g2 + ">" + (g3 + ">"));
  }

  /** Only the first frame of a chunk is resynchronised, so where the stream is cut matters.
      A frame, a stray fragment ended by `>`, and a second frame yield three lines in one
      chunk (the fragment's line in the middle, the second frame's with its `<`), but two
      lines when the stream is cut after the first frame, because the second chunk's leading
      fragment is then dropped. With `p`, `x`, `q` = `A`, `xx`, `B` this is
      `< A >xx> < B >`. */
  lemma ChunkBoundariesMatter(p: string, x: string, q: string)
    requires '<' !in x && '>' !in p && '>' !in x && '>' !in q
    requires |p| + |x| + |q| <= 100
    ensures Feed("", "< " + p + " >" + x + "> < " + q + " >").lines == [" " + p, LineOfSegment(x), "< " + q]
    ensures Feed("", "< " + p + " >") == FeedResult([" " + p], "", false)
    ensures Feed("", x + "> < " + q + " >") == FeedResult([" " + q], "", false)
  {
    OneChunkFrames(p, x, q);
    FirstFrameAlone(p);
    FragmentThenFrame(x, q);
  }

  /** How the one-chunk stream of the example regroups into its three segments. */
  lemma OneChunkShape(p: string, x: string, q: string)
    ensures "< " + p + " >" + x + "> < " + q + " >"
      == ("< " + p + " ") + ">" + (x + ">" + ((" < " + q + " ") + ">"))
  {
  }

  /** The three segments of the one-chunk stream, and the lines cut from them. */
  lemma OneChunkSegments(p: string, x: string, q: string)
    requires '>' !in p && '>' !in x && '>' !in q
    ensures Lines(Segments(("< " + p + " ") + ">" + (x + ">" + ((" < " + q + " ") + ">"))))
      == [" " + p, LineOfSegment(x), "< " + q]
  {
    FrameShape(p);
    FrameShape(q);
    ThreeSegments("< " + p + " ", x, " < " + q + " ");
    LineOfWrapped('<', " " + p, ' ');
    LineOfWrapped(' ', "< " + q, ' ');
    LinesOfThree("< " + p + " ", x, " < " + q + " ");
  }

  lemma LinesOfThree(a: string, b: string, c: string)
    ensures Lines([a, b, c]) == [LineOfSegment(a), LineOfSegment(b), LineOfSegment(c)]
  {
    var ls := Lines([a, b, c]);
    assert ls[0] == LineOfSegment(a) && ls[1] == LineOfSegment(b) && ls[2] == LineOfSegment(c);
  }

  lemma OneChunkFrames(p: string, x: string, q: string)
    requires '>' !in p && '>' !in x && '>' !in q && |p| + |x| + |q| <= 100
    ensures Feed("", "< " + p + " >" + x + "> < " + q + " >").lines == [" " + p, LineOfSegment(x), "< " + q]
  {
    OneChunkShape(p, x, q);
    FrameShape(p);
    OpensAndCloses("< " + p + " ", x + ">" + ((" < " + q + " ") + ">"));
    OneChunkSegments(p, x, q);
    FeedFromOpen(("< " + p + " ") + ">" + (x + ">" + ((" < " + q + " ") + ">")));
  }

  /** The first frame of the example, in a chunk of its own. */
  lemma FirstFrameAlone(p: string)
    requires '>' !in p && |p| + 4 <= MaxBuffer
    ensures Feed("", "< " + p + " >") == FeedResult([" " + p], "", false)
  {
    FrameShape(p);
    OpensAndCloses("< " + p + " ", "");
    assert ("< " + p + " ") + ">" + "" == "< " + p + " >";
    SpacedFrame(p);
    FeedFromOpen("< " + p + " >");
  }

  /** How a fragment-led stream regroups, and where its frame starts. */
  lemma FragmentParts(x: string, h: string)
    requires '<' !in x
    ensures "" + (x + "> " + h) == x + "> " + h
    ensures x + "> " + h == x + ("> " + h) && ("> " + h)[0] == '>'
    ensures (x + "> " + h)[|x| + 2..] == h
    ensures '<' !in x + "> " && x + "> " + h == (x + "> ") + h
  {
  }

  /** Where the first `<` of a fragment-led stream is. */
  lemma FragmentOpen(x: string, h: string)
    requires '<' !in x && '>' !in x && h != [] && h[0] == '<'
    ensures IndexOf(x + "> " + h, '<') == |x| + 2
    ensures IndexOf(x + "> " + h, '>') == |x|
  {
    FragmentParts(x, h);
    IndexOfAfter(x, '>', "> " + h);
    IndexOfAfter(x + "> ", '<', h);
  }

  /** A `>`-ended fragment holding no `<`, then a frame: the fragment and the space are dropped. */
  lemma FeedAfterFragment(x: string, h: string)
    requires '<' !in x && '>' !in x && h != [] && h[0] == '<' && '>' in h && |x| + |h| + 2 <= MaxBuffer
    ensures Feed("", x + "> " + h) == Framed(h)
  {
    FragmentResync(x, h);
    FragmentParts(x, h);
  }

  /** Resynchronising a fragment-led stream leaves the frame. */
  lemma FragmentResync(x: string, h: string)
    requires '<' !in x && '>' !in x && h != [] && h[0] == '<'
    ensures !Waiting(x + "> " + h) && Resync(x + "> " + h) == h
  {
    FragmentOpen(x, h);
    ResyncAt(x + "> " + h, |x| + 2, |x|);
    FragmentParts(x, h);
  }

  /** A buffer whose first `>` comes before its first `<` is cut at that `<`. */
  lemma ResyncAt(b: string, start: int, end: int)
    requires 0 <= end < start && IndexOf(b, '<') == start && IndexOf(b, '>') == end
    ensures !Waiting(b) && Resync(b) == b[start..]
  {
  }

  /** A fragment ended by `>` in front of a frame is dropped. */
  lemma FragmentThenFrame(x: string, q: string)
    requires '<' !in x && '>' !in x && '>' !in q && |x| + |q| <= 100
    ensures Feed("", x + "> < " + q + " >") == FeedResult([" " + q], "", false)
  {
    FragmentShape(x, q);
    FrameShape(q);
    OpensAndCloses("< " + q + " ", "");
    assert ("< " + q + " ") + ">" + "" == "< " + q + " >";
    FeedAfterFragment(x, "< " + q + " >");
    SpacedFrame(q);
  }

  lemma FragmentShape(x: string, q: string)
    ensures x + "> < " + q + " >" == x + "> " + ("< " + q + " >")
  {
  }

  /** A report line ending in a non-space character is its own trim, with or without the
      space a spaced frame leaves in front of it. */
  lemma TrimReportLine(f: string, v: string)
    requires v != [] && !IsSpace(v[|v| - 1])
    ensures Trim("REP " + f + " " + v) == "REP " + f + " " + v
    ensures Trim(" " + ("REP " + f + " " + v)) == "REP " + f + " " + v
  {
    assert ("REP " + f + " " + v)[0] == 'R';
    assert ("REP " + f + " " + v)[|"REP " + f + " " + v| - 1] == v[|v| - 1];
    TrimUnchanged("REP " + f + " " + v);
    TrimAfterSpace("REP " + f + " " + v);
  }

  /** The line of a segment that starts with `<` and has no space before its `>`. */
  lemma UnspacedLine(t: string)
    requires t != []
    ensures LineOfSegment("<" + t) == t[..|t| - 1]
  {
    assert t == t[..|t| - 1] + [t[|t| - 1]];
    assert "<" + t == ['<'] + t[..|t| - 1] + [t[|t| - 1]];
    LineOfWrapped('<', t[..|t| - 1], t[|t| - 1]);
  }

  /** The line text drops the character before `>`: a frame written without the spaces
      inside its brackets, such as `<REP MODEL {P300}>`, yields its text without the last
      character, `REP MODEL {P300`. */
  lemma UnspacedFrame(t: string)
    requires '>' !in t && t != [] && |t| + 2 <= MaxBuffer
    ensures Feed("", "<" + t + ">").lines == [t[..|t| - 1]]
  {
    assert "<" + t + ">" == ("<" + t) + ">";
    OneSegment("<" + t);
    FeedFromOpen("<" + t + ">");
    UnspacedLine(t);
    assert Lines(["<" + t])[0] == t[..|t| - 1];
  }

  /** Braces around a one-line text keep it one line. */
  lemma BracedLine(v: string)
    requires IsRestOfLine(v)
    ensures IsRestOfLine("{" + v) && IsRestOfLine("{" + v + "}")
  {
    assert forall k :: 1 <= k < |v| + 1 ==> ("{" + v)[k] == v[k - 1];
    assert forall k :: 1 <= k < |v| + 1 ==> ("{" + v + "}")[k] == v[k - 1];
  }

  /** The fields whose values are brace-stripped before they are stored. */
  predicate IsNameField(f: string) {
    f == "MODEL" || f == "SERIAL_NUM" || f == "FW_VER" || f == "DEVICE_ID" || f == "CHAN_NAME"
  }

  /** A name field is a field the handler knows, and stores its value brace-stripped. */
  lemma NameFieldStored(f: string, w: string)
    requires IsNameField(f)
    ensures IsFieldName(f) && KnownField(f) && StoredValue(f, w) == Str(TrimShureString(w))
  {
  }

  /** ... so a name field reported that way keeps its opening brace (the model `{P300`) ... */
  lemma UnspacedNameKeepsBrace(state: map<string, Value>, f: string, v: string)
    requires IsNameField(f)
    requires IsRestOfLine(v) && !IsSpace(v[|v| - 1]) && v[|v| - 1] != '}'
    ensures Get(Apply(state, Writes("REP " + f + " " + ("{" + v))), FieldKey(f, None)) == Str("{" + v)
  {
    NameFieldStored(f, "{" + v);
    BracedLine(v);
    GlobalReportEffect(state, f, "{" + v);
    assert !Braced("{" + v);
  }

  /** ... while the spaced frame `< REP MODEL {P300} >` yields ` REP MODEL {P300}`, which
      stores `P300`. */
  lemma SpacedNameUnwrapped(state: map<string, Value>, f: string, v: string)
    requires IsNameField(f)
    requires IsRestOfLine(v) && !IsSpace(v[|v| - 1])
    ensures Get(Apply(state, Writes("REP " + f + " " + ("{" + v + "}"))), FieldKey(f, None)) == Str(v)
  {
    NameFieldStored(f, "{" + v + "}");
    BracedLine(v);
    GlobalReportEffect(state, f, "{" + v + "}");
    assert "{" + v + "}" == "{" + v + "" + "}";
    TrimShureStringUnwraps(v, "");
  }
}
