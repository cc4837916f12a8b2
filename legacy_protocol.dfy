/** The legacy engine's pure logic (index.js): the offset-based splitter of its `data`
    handler, the `receiveline` clean-up, and the `split(' ')`-based report parser with the
    variables it writes. The class in module LegacyModule runs these steps on its fields. */
module LegacyProtocol {
  import opened JsString
  import opened DeviceState
  import opened Framing

  // ---------------------------------------------------------------- framing

  /** What one `data` event leaves: the lines emitted, in order, and the buffer kept. */
  datatype Emitted = Emitted(lines: seq<string>, buffer: string)

  /** The legacy splitter on the accumulated text: every `>`-terminated piece, taken whole
      (`substr(offset, i - offset)`), and the text after the last `>`. There is no size bound
      and no resynchronisation. */
  function LegacyFeed(buffer: string, chunk: string): Emitted {
    Emitted(Segments(buffer + chunk), Remainder(buffer + chunk))
  }

  /** The splitter partitions the stream exactly: the lines, each followed by its `>`, and then
      the kept buffer spell the old buffer and the chunk; there is one line per `>` and the
      kept buffer holds none. */
  lemma LegacyFeedPartition(buffer: string, chunk: string)
    ensures Terminated(LegacyFeed(buffer, chunk).lines) + LegacyFeed(buffer, chunk).buffer
      == buffer + chunk
    ensures |LegacyFeed(buffer, chunk).lines| == Count(buffer + chunk, '>')
    ensures '>' !in LegacyFeed(buffer, chunk).buffer
    ensures forall k :: 0 <= k < |LegacyFeed(buffer, chunk).lines| ==>
      '>' !in LegacyFeed(buffer, chunk).lines[k]
  {
    Partition(buffer + chunk);
    SegmentCount(buffer + chunk);
    RemainderOpen(buffer + chunk);
    SegmentsOpen(buffer + chunk);
  }

  /** Chunk boundaries do not matter to the legacy splitter: feeding `a` and then `b` emits
      what feeding `a + b` at once emits, and keeps the same buffer. */
  lemma LegacyChunkIndependent(buffer: string, a: string, b: string)
    ensures var first := LegacyFeed(buffer, a);
      var second := LegacyFeed(first.buffer, b);
      && first.lines + second.lines == LegacyFeed(buffer, a + b).lines
      && second.buffer == LegacyFeed(buffer, a + b).buffer
  {
    SegmentsAppend(buffer + a, b);
    RemainderAppend(buffer + a, b);
    AppendAssoc(buffer, a, b);
  }

  /** `i` is where the search from `offset` stops: the first `>` at or after it, or -1 when
      there is none. */
  ghost predicate NextClose(b: string, offset: nat, i: int)
    requires offset <= |b|
  {
    if i == -1 then '>' !in b[offset..]
    else offset <= i < |b| && b[i] == '>' && '>' !in b[offset..i]
  }

  /** `indexOf('>', offset)`: the first `>` at or after `offset`, or -1 when there is none. */
  lemma FindFrom(b: string, offset: nat)
    requires offset <= |b|
    ensures NextClose(b, offset, IndexOfFrom(b, '>', offset))
  {
    var c := b[offset..];
    var j := IndexOf(c, '>');
    if j != -1 {
      assert c[..j] == b[offset..offset + j];
    }
  }

  /** One turn of the splitter's loop: from `offset`, the next `>` at `i` ends the piece
      `substr(offset, i - offset)`, and the search goes on after it. */
  lemma LegacyStep(b: string, offset: nat, i: nat)
    requires offset <= i < |b| && b[i] == '>' && '>' !in b[offset..i]
    ensures Segments(b[offset..]) == [Substr(b, offset, i - offset)] + Segments(b[i + 1..])
    ensures Remainder(b[offset..]) == Remainder(b[i + 1..])
  {
    var g, t := b[offset..i], b[i + 1..];
    assert Substr(b, offset, i - offset) == g;
    assert b[offset..] == g + ">" + t by {
      assert b[offset..] == b[offset..i] + b[i..] && b[i..] == [b[i]] + b[i + 1..];
    }
    Unfold(g, t);
  }

  /** The splitter's loop at `offset`: the pieces already handled, followed by the pieces
      from `offset` on, are all the pieces of `b`, and the text after the last `>` is the
      same from either place. */
  ghost predicate Cursor(b: string, offset: nat, lines: seq<string>)
    requires offset <= |b|
  {
    lines + Segments(b[offset..]) == Segments(b) && Remainder(b[offset..]) == Remainder(b)
  }

  /** Before the loop nothing is handled and every piece is still to come. */
  lemma CursorStart(b: string)
    ensures Cursor(b, 0, [])
  {
    assert b[0..] == b;
  }

  /** When no `>` is left after `offset`, the pieces handled are all of them and the text
      from `offset` on is what the splitter keeps. */
  lemma CursorEnd(b: string, offset: nat, lines: seq<string>)
    requires offset <= |b| && Cursor(b, offset, lines) && '>' !in b[offset..]
    ensures lines == Segments(b) && b[offset..] == Remainder(b)
  {
    NoClose(b[offset..]);
    assert lines + [] == lines;
  }

  /** The loop's invariant moves past one piece. */
  lemma LegacyCut(b: string, offset: nat, i: nat, lines: seq<string>)
    requires offset <= i < |b| && b[i] == '>' && '>' !in b[offset..i]
    requires Cursor(b, offset, lines)
    ensures Cursor(b, i + 1, lines + [Substr(b, offset, i - offset)])
  {
    LegacyStep(b, offset, i);
    ListAssoc(lines, [Substr(b, offset, i - offset)], Segments(b[i + 1..]));
  }

  /** `line.replace('< ', '').trim()`: the first `< ` is removed, then the padding. */
  function ReceiveLine(line: string): string {
    Trim(RemoveFirst(line, "< "))
  }

  /** A line that opens with `< ` loses that opener and its padding, and nothing else: a
      later `< ` in it is kept. */
  lemma ReceiveLineOpener(rest: string)
    ensures ReceiveLine("< " + rest) == Trim(rest)
  {
    var s := "< " + rest;
    assert OccursAt(s, "< ", 0);
    assert IndexOfText(s, "< ", 0) == 0;
    assert s[..0] + s[2..] == rest;
  }

  // ---------------------------------------------------------------- reports

  /** The JavaScript values the parser's variables can hold: `null` before they are assigned,
      `undefined` for an element past the end of the `split` array, or a string. */
  datatype JsValue = Null | Undef | Text(s: string)

  /** Element `k` of `split(' ')`'s result. */
  function Token(parts: seq<string>, k: nat): JsValue {
    if k < |parts| then Text(parts[k]) else Undef
  }

  /** String concatenation's rendering of a value. */
  function Render(v: JsValue): string {
    match v
    case Null => "null"
    case Undef => "undefined"
    case Text(s) => s
  }

  /** The variables the parser fills from a `REP` line. */
  datatype LegacyReport = LegacyReport(num: JsValue, field: JsValue, value: JsValue)

  /** A line is about a channel when its fifth character, the one after `REP `, is a digit:
      exactly when `parseInt(command.substr(4, 1))` is a number (`LegacyTests`). */
  predicate ChannelScoped(command: string) {
    |command| > 4 && IsDigit(command[4])
  }

  /** The recognition step of the legacy `processShureCommand`: any line starting with `REP`
      is split at every space; a channel line reads number, field and value from tokens 1, 2
      and 3, any other line reads field and value from tokens 1 and 2 and leaves the number
      `null`. */
  function ParseLegacy(command: string): Option<LegacyReport> {
    if !HasPrefix(command, "REP") then None
    else
      var parts := Split(command, ' ');
      if !ChannelScoped(command) then Some(LegacyReport(Null, Token(parts, 1), Token(parts, 2)))
      else Some(LegacyReport(Token(parts, 1), Token(parts, 2), Token(parts, 3)))
  }

  /** `updateVariable(key, value.trim())`: with no value, `trim` throws, the handler's `catch`
      logs it and nothing is written. */
  function TrimmedWrite(key: string, value: JsValue): seq<Write> {
    match value
    case Text(s) => [Write(key, Str(Trim(s)))]
    case _ => []
  }

  lemma TrimmedWriteCases(m: map<string, Value>, key: string, value: JsValue)
    ensures value.Text? ==> Apply(m, TrimmedWrite(key, value)) == m[key := Str(Trim(value.s))]
    ensures value.Text? ==> TrimmedWrite(key, value) == [Write(key, Str(Trim(value.s)))]
    ensures !value.Text? ==> Apply(m, TrimmedWrite(key, value)) == m && TrimmedWrite(key, value) == []
  {
    if value.Text? {
      var w := Write(key, Str(Trim(value.s)));
      assert TrimmedWrite(key, value) == [w];
      ApplyOne(m, w);
    } else {
      assert TrimmedWrite(key, value) == [];
    }
  }

  /** A value stored as it is: a missing one is stored as `undefined`. */
  function Raw(value: JsValue): Value {
    match value
    case Text(s) => Str(s)
    case _ => Undefined
  }

  /** The fields the legacy switch has a case for. */
  predicate LegacyKnownField(f: string) {
    f in {"MODEL", "SERIAL_NUM", "FW_VER", "DEVICE_ID", "CHAN_NAME", "FLASH", "PRESET"}
  }

  /** The `switch (commandVar)` of the legacy handler: the writes of one report. */
  function LegacyReportWrites(r: LegacyReport): seq<Write> {
    match r.field
    case Text(f) =>
      if f == "MODEL" then TrimmedWrite("model", r.value)
      else if f == "SERIAL_NUM" then TrimmedWrite("serial_number", r.value)
      else if f == "FW_VER" then [Write("firmware_version", Raw(r.value))]
      else if f == "DEVICE_ID" then TrimmedWrite("deviceid", r.value)
      else if f == "CHAN_NAME" then TrimmedWrite("channel_name_" + Render(r.num), r.value)
      else if f == "FLASH" then [Write("flash_state", Raw(r.value))]
      else if f == "PRESET" then [Write("preset_active", Raw(r.value))]
      else []
    case _ => []
  }

  /** The feedback the legacy switch re-evaluates: only FLASH does. */
  function LegacyReportChecks(r: LegacyReport): seq<string> {
    if r.field == Text("FLASH") then ["flash_state"] else []
  }

  /** A stored channel name rebuilds the action and feedback definitions. */
  function LegacyReportRefreshes(r: LegacyReport): seq<string> {
    if r.field == Text("CHAN_NAME") && r.value.Text? then ["actions", "feedbacks"] else []
  }

  /** Every write the legacy handler makes for `command`: the line itself first. */
  function LegacyWrites(command: string): seq<Write> {
    [Write("last_command_received", Str(command))]
      + match ParseLegacy(command) case None => [] case Some(r) => LegacyReportWrites(r)
  }

  function LegacyChecks(command: string): seq<string> {
    match ParseLegacy(command) case None => [] case Some(r) => LegacyReportChecks(r)
  }

  function LegacyRefreshes(command: string): seq<string> {
    match ParseLegacy(command) case None => [] case Some(r) => LegacyReportRefreshes(r)
  }

  /** The writes of a run of received lines, each cleaned by `receiveline` first. */
  function LegacyLinesWrites(lines: seq<string>): seq<Write> {
    if lines == [] then []
    else LegacyLinesWrites(lines[..|lines| - 1]) + LegacyWrites(ReceiveLine(lines[|lines| - 1]))
  }

  function LegacyLinesChecks(lines: seq<string>): seq<string> {
    if lines == [] then []
    else LegacyLinesChecks(lines[..|lines| - 1]) + LegacyChecks(ReceiveLine(lines[|lines| - 1]))
  }

  function LegacyLinesRefreshes(lines: seq<string>): seq<string> {
    if lines == [] then []
    else LegacyLinesRefreshes(lines[..|lines| - 1]) + LegacyRefreshes(ReceiveLine(lines[|lines| - 1]))
  }

  lemma LegacyLinesSnoc(lines: seq<string>, line: string)
    ensures LegacyLinesWrites(lines + [line]) == LegacyLinesWrites(lines) + LegacyWrites(ReceiveLine(line))
    ensures LegacyLinesChecks(lines + [line]) == LegacyLinesChecks(lines) + LegacyChecks(ReceiveLine(line))
    ensures LegacyLinesRefreshes(lines + [line])
      == LegacyLinesRefreshes(lines) + LegacyRefreshes(ReceiveLine(line))
  {
    assert (lines + [line])[..|lines|] == lines;
  }

  // ---------------------------------------------------------------- properties

  /** The parse of one character, as `parseInt(command.substr(4, 1))` sees it. */
  lemma ParseOneChar(c: char)
    ensures ParseInt([c]).Some? <==> IsDigit(c)
  {
    var t := TrimStart([c]);
    if IsSpace(c) {
      assert t == [];
    } else {
      assert t == [c];
    }
  }

  /** The parser's two tests, as the handler writes them: `command.substr(0, 3) === 'REP'`
      is a prefix test, and `parseInt(command.substr(4, 1))` is a number exactly when the
      fifth character is a digit. */
  lemma LegacyTests(command: string)
    ensures Substr(command, 0, 3) == "REP" <==> HasPrefix(command, "REP")
    ensures ParseInt(Substr(command, 4, 1)).Some? <==> ChannelScoped(command)
  {
    if |command| > 4 {
      assert Substr(command, 4, 1) == [command[4]];
      ParseOneChar(command[4]);
    } else {
      assert Substr(command, 4, 1) == [];
    }
    if |command| >= 3 {
      assert Substr(command, 0, 3) == command[..3];
    }
  }

  /** `split(' ')` of a space-free token, a space and the rest. */
  lemma SplitToken(a: string, rest: string)
    requires ' ' !in a
    ensures Split(a + " " + rest, ' ') == [a] + Split(rest, ' ')
  {
    assert a + " " + rest == a + [' '] + rest;
    SplitAtFirst(a, ' ', rest);
  }

  /** The tokens of a value followed by nothing or by a space and more text: the value comes
      first. */
  lemma SplitValue(v: string, tail: string)
    requires ' ' !in v && (tail == [] || tail[0] == ' ')
    ensures Split(v + tail, ' ') != [] && Split(v + tail, ' ')[0] == v
  {
    if tail == [] {
      assert v + tail == v;
      SplitNoSeparator(v, ' ');
    } else {
      assert v + tail == v + " " + tail[1..];
      SplitToken(v, tail[1..]);
    }
  }

  /** `REP <field> <value>…`, regrouped token by token. */
  lemma GlobalShape(f: string, v: string, tail: string)
    ensures "REP " + f + " " + v + tail == "REP" + " " + (f + " " + (v + tail))
  {
    var a := "REP ";
    AppendAssoc(a + f + " ", v, tail);
    AppendAssoc(a + f, " ", v + tail);
    AppendAssoc(a, f, " " + (v + tail));
    AppendAssoc(f, " ", v + tail);
    assert a == "REP" + " ";
  }

  /** `REP <field> <value>…`: a global report of the field, with the first token after it as
      its value. */
  lemma LegacyParseGlobal(f: string, v: string, tail: string)
    requires f != [] && ' ' !in f && !IsDigit(f[0])
    requires ' ' !in v && (tail == [] || tail[0] == ' ')
    ensures ParseLegacy("REP " + f + " " + v + tail) == Some(LegacyReport(Null, Text(f), Text(v)))
  {
    var s := "REP " + f + " " + v + tail;
    assert HasPrefix(s, "REP") && !ChannelScoped(s) by {
      assert s[..3] == "REP" && s[4] == f[0];
    }
    var parts, x := Split(s, ' '), Split(v + tail, ' ');
    GlobalSplit(f, v, tail);
    SplitValue(v, tail);
    assert parts == ["REP", f] + x && x != [] && x[0] == v;
    assert |parts| >= 3 && parts[1] == f && parts[2] == v;
  }

  /** `REP <f> <v>…` splits into `REP`, `f` and the pieces of `<v>…`. */
  lemma GlobalSplit(f: string, v: string, tail: string)
    requires ' ' !in f
    ensures Split("REP " + f + " " + v + tail, ' ') == ["REP", f] + Split(v + tail, ' ')
  {
    var x := Split(v + tail, ' ');
    var s, r := "REP " + f + " " + v + tail, f + " " + (v + tail);
    GlobalShape(f, v, tail);
    assert s == "REP" + " " + r;
    SplitToken("REP", r);
    SplitToken(f, v + tail);
    ConsTwo("REP", f, x);
  }

  /** The same, for a value that ends the line. */
  lemma LegacyParseGlobalEnd(f: string, v: string)
    requires f != [] && ' ' !in f && !IsDigit(f[0]) && ' ' !in v
    ensures ParseLegacy("REP " + f + " " + v) == Some(LegacyReport(Null, Text(f), Text(v)))
  {
    LegacyParseGlobal(f, v, []);
    assert "REP " + f + " " + v + [] == "REP " + f + " " + v;
  }

  /** `REP <field>` alone: a global report of the field with no value. */
  lemma LegacyParseBare(f: string)
    requires f != [] && ' ' !in f && !IsDigit(f[0])
    ensures ParseLegacy("REP " + f) == Some(LegacyReport(Null, Text(f), Undef))
  {
    var s := "REP " + f;
    assert HasPrefix(s, "REP") && !ChannelScoped(s) by {
      assert s[..3] == "REP" && s[4] == f[0];
    }
    var parts := Split(s, ' ');
    assert parts == ["REP", f] by {
      AppendAssoc("REP", " ", f);
      assert "REP " == "REP" + " ";
      SplitToken("REP", f);
      SplitNoSeparator(f, ' ');
      ConsTwo("REP", f, []);
      assert [f] + [] == [f];
    }
  }

  /** `REP <digits> <field> <value>…`, regrouped token by token. */
  lemma ChannelShape(d: string, f: string, v: string, tail: string)
    ensures "REP " + d + " " + f + " " + v + tail
      == "REP" + " " + (d + " " + (f + " " + (v + tail)))
  {
    var a := "REP ";
    AppendAssoc(a + d + " " + f + " ", v, tail);
    AppendAssoc(a + d + " " + f, " ", v + tail);
    AppendAssoc(a + d + " ", f, " " + (v + tail));
    AppendAssoc(f, " ", v + tail);
    AppendAssoc(a + d, " ", f + " " + (v + tail));
    AppendAssoc(a, d, " " + (f + " " + (v + tail)));
    AppendAssoc(d, " ", f + " " + (v + tail));
    assert a == "REP" + " ";
  }

  /** `REP <digits> <field> <value>…`: a report for the channel token, whatever its length. */
  lemma LegacyParseChannel(d: string, f: string, v: string, tail: string)
    requires d != [] && AllDigits(d) && ' ' !in f
    requires ' ' !in v && (tail == [] || tail[0] == ' ')
    ensures ParseLegacy("REP " + d + " " + f + " " + v + tail)
      == Some(LegacyReport(Text(d), Text(f), Text(v)))
  {
    var s := "REP " + d + " " + f + " " + v + tail;
    assert HasPrefix(s, "REP") && ChannelScoped(s) by {
      assert s[..3] == "REP" && s[4] == d[0];
    }
    assert ' ' !in d by {
      forall k | 0 <= k < |d| ensures d[k] != ' ' { assert IsDigit(d[k]); }
    }
    var parts, x := Split(s, ' '), Split(v + tail, ' ');
    ChannelSplit(d, f, v, tail);
    SplitValue(v, tail);
    assert parts == ["REP", d, f] + x && x != [] && x[0] == v;
    assert |parts| >= 4 && parts[1] == d && parts[2] == f && parts[3] == v;
  }

  /** `REP <d> <f> <v>…` splits into `REP`, `d`, `f` and the pieces of `<v>…`. */
  lemma ChannelSplit(d: string, f: string, v: string, tail: string)
    requires ' ' !in d && ' ' !in f
    ensures Split("REP " + d + " " + f + " " + v + tail, ' ') == ["REP", d, f] + Split(v + tail, ' ')
  {
    var x := Split(v + tail, ' ');
    var s, r := "REP " + d + " " + f + " " + v + tail, d + " " + (f + " " + (v + tail));
    ChannelShape(d, f, v, tail);
    assert s == "REP" + " " + r;
    SplitToken("REP", r);
    SplitToken(d, f + " " + (v + tail));
    SplitToken(f, v + tail);
    ConsThree("REP", d, f, x);
  }

  /** The same, for a value that ends the line. */
  lemma LegacyParseChannelEnd(d: string, f: string, v: string)
    requires d != [] && AllDigits(d) && f != [] && ' ' !in f && ' ' !in v
    ensures ParseLegacy("REP " + d + " " + f + " " + v) == Some(LegacyReport(Text(d), Text(f), Text(v)))
  {
    LegacyParseChannel(d, f, v, []);
    assert "REP " + d + " " + f + " " + v + [] == "REP " + d + " " + f + " " + v;
  }

  /** Every line records itself first; a line not starting with `REP` records nothing else. */
  lemma LegacyRecorded(command: string)
    ensures LegacyWrites(command)[0] == Write("last_command_received", Str(command))
    ensures !HasPrefix(command, "REP") ==>
      LegacyWrites(command) == [Write("last_command_received", Str(command))]
      && LegacyChecks(command) == [] && LegacyRefreshes(command) == []
  {
  }

  /** What a recognised report makes the handler do. */
  lemma LegacyEffects(command: string, r: LegacyReport)
    requires ParseLegacy(command) == Some(r)
    ensures LegacyWrites(command) == [Write("last_command_received", Str(command))] + LegacyReportWrites(r)
    ensures LegacyChecks(command) == LegacyReportChecks(r)
    ensures LegacyRefreshes(command) == LegacyReportRefreshes(r)
  {
  }

  /** A CHAN_NAME report writes the trimmed value under `channel_name_` and the number as
      JavaScript renders it. */
  lemma ChannelNameReport(num: JsValue, value: JsValue)
    ensures LegacyReportWrites(LegacyReport(num, Text("CHAN_NAME"), value))
      == TrimmedWrite("channel_name_" + Render(num), value)
  {
    assert "CHAN_NAME" != "MODEL" && "CHAN_NAME" != "SERIAL_NUM";
    assert "CHAN_NAME" != "FW_VER" && "CHAN_NAME" != "DEVICE_ID";
  }

  /** What a channel report ending in its value makes the handler write. */
  lemma ChannelEffects(d: string, f: string, v: string)
    requires d != [] && AllDigits(d) && f != [] && ' ' !in f && ' ' !in v
    ensures var s := "REP " + d + " " + f + " " + v;
      LegacyWrites(s) == [Write("last_command_received", Str(s))]
        + LegacyReportWrites(LegacyReport(Text(d), Text(f), Text(v)))
  {
    LegacyParseChannelEnd(d, f, v);
    LegacyEffects("REP " + d + " " + f + " " + v, LegacyReport(Text(d), Text(f), Text(v)));
  }

  /** What a global report ending in its value makes the handler do. */
  lemma GlobalEffects(f: string, v: string)
    requires f != [] && ' ' !in f && !IsDigit(f[0]) && ' ' !in v
    ensures var s := "REP " + f + " " + v;
      var r := LegacyReport(Null, Text(f), Text(v));
      && LegacyWrites(s) == [Write("last_command_received", Str(s))] + LegacyReportWrites(r)
      && LegacyChecks(s) == LegacyReportChecks(r)
      && LegacyRefreshes(s) == LegacyReportRefreshes(r)
  {
    LegacyParseGlobalEnd(f, v);
    LegacyEffects("REP " + f + " " + v, LegacyReport(Null, Text(f), Text(v)));
  }

  /** A global CHAN_NAME report is filed under `'channel_name_' + null`, that is
      `channel_name_null`, and rebuilds the action and feedback definitions. */
  lemma LegacyGlobalChannelName(v: string)
    requires ' ' !in v
    ensures var s := "REP " + "CHAN_NAME" + " " + v;
      && LegacyWrites(s) == [Write("last_command_received", Str(s)), Write("channel_name_" + "null", Str(Trim(v)))]
      && LegacyRefreshes(s) == ["actions", "feedbacks"]
  {
    var s := "REP " + "CHAN_NAME" + " " + v;
    var r := LegacyReport(Null, Text("CHAN_NAME"), Text(v));
    var t := Trim(v);
    assert LegacyReportWrites(r) == [Write("channel_name_" + "null", Str(t))] by {
      ChannelNameReport(Null, Text(v));
    }
    LegacyParseGlobalEnd("CHAN_NAME", v);
    LegacyEffects(s, r);
  }

  /** A channel CHAN_NAME report is filed under the whole channel token, however long: `REP
      123 CHAN_NAME x` writes `channel_name_123`. */
  lemma LegacyChannelName(d: string, v: string)
    requires d != [] && AllDigits(d) && ' ' !in v
    ensures var s := "REP " + d + " " + "CHAN_NAME" + " " + v;
      LegacyWrites(s) == [Write("last_command_received", Str(s)), Write("channel_name_" + d, Str(Trim(v)))]
  {
    assert ' ' !in "CHAN_NAME";
    ChannelEffects(d, "CHAN_NAME", v);
    var t := Trim(v);
    assert LegacyReportWrites(LegacyReport(Text(d), Text("CHAN_NAME"), Text(v)))
      == [Write("channel_name_" + d, Str(t))] by {
      ChannelNameReport(Text(d), Text(v));
    }
  }

  /** A MODEL, SERIAL_NUM or DEVICE_ID report without a value makes `trim` throw: only the
      line itself is recorded. */
  lemma LegacyMissingValue(f: string)
    requires f == "MODEL" || f == "SERIAL_NUM" || f == "DEVICE_ID"
    ensures LegacyWrites("REP " + f) == [Write("last_command_received", Str("REP " + f))]
    ensures LegacyChecks("REP " + f) == [] && LegacyRefreshes("REP " + f) == []
  {
    var r := LegacyReport(Null, Text(f), Undef);
    assert f != [] && ' ' !in f && !IsDigit(f[0]);
    LegacyParseBare(f);
    LegacyEffects("REP " + f, r);
    assert LegacyReportWrites(r) == [] by {
      if f == "MODEL" {
      } else if f == "SERIAL_NUM" {
        assert f != "MODEL";
      } else {
        assert f != "MODEL" && f != "SERIAL_NUM" && f != "FW_VER";
      }
    }
    assert LegacyReportChecks(r) == [] by {
      assert f != "FLASH";
    }
  }

  /** Only the next space-separated token is the value: `REP FW_VER 1.2 beta` stores `1.2`. */
  lemma LegacyValueTruncated(v: string, more: string)
    requires ' ' !in v
    ensures var s := "REP " + "FW_VER" + " " + v + (" " + more);
      LegacyWrites(s) == [Write("last_command_received", Str(s)), Write("firmware_version", Str(v))]
  {
    var s := "REP " + "FW_VER" + " " + v + (" " + more);
    LegacyParseGlobal("FW_VER", v, " " + more);
    LegacyEffects(s, LegacyReport(Null, Text("FW_VER"), Text(v)));
  }

  /** FLASH stores its value as it is and re-evaluates the flash feedback. */
  lemma LegacyFlash(v: string)
    requires ' ' !in v
    ensures var s := "REP " + "FLASH" + " " + v;
      && LegacyWrites(s) == [Write("last_command_received", Str(s)), Write("flash_state", Str(v))]
      && LegacyChecks(s) == ["flash_state"]
  {
    assert ' ' !in "FLASH";
    GlobalEffects("FLASH", v);
    var r := LegacyReport(Null, Text("FLASH"), Text(v));
    assert LegacyReportWrites(r) == [Write("flash_state", Str(v))] by {
      assert "FLASH" != "MODEL" && "FLASH" != "SERIAL_NUM" && "FLASH" != "FW_VER";
      assert "FLASH" != "DEVICE_ID" && "FLASH" != "CHAN_NAME";
    }
  }

  /** PRESET stores its value as text, not as a number, and re-evaluates no feedback. */
  lemma LegacyPreset(v: string)
    requires ' ' !in v
    ensures var s := "REP " + "PRESET" + " " + v;
      && LegacyWrites(s) == [Write("last_command_received", Str(s)), Write("preset_active", Str(v))]
      && LegacyChecks(s) == []
  {
    assert ' ' !in "PRESET";
    GlobalEffects("PRESET", v);
    var r := LegacyReport(Null, Text("PRESET"), Text(v));
    assert LegacyReportWrites(r) == [Write("preset_active", Str(v))] by {
      assert "PRESET"[0] != "FW_VER"[0] && "PRESET"[0] != "FLASH"[0];
    }
    assert LegacyReportChecks(r) == [] by {
      assert "PRESET"[0] != "FLASH"[0];
    }
  }
}
