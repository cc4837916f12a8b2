/** The legacy engine's instance (index.js `instance`): its configuration, its local copy of
    the variables, its receive buffer and its socket, and the handlers that change them. Calls
    into the host (variable values, feedback checks, action and feedback definitions, status)
    are kept as ghost logs. */
module LegacyModule {
  import opened JsString
  import opened DeviceState
  import opened Framing
  import opened LegacyProtocol
  import opened Transport
  import Actions

  /** The host and port the user configured. A missing or empty host is `""` (both are falsy);
      a port that was never set is `None`. */
  datatype LegacyConfig = LegacyConfig(host: string, port: Option<string>)

  /** The port `init_module` fills in when none is configured. The module assigns the number
      2202, where a configured port is text; the model keeps every port as text, so the
      default is the text that number prints as. */
  const DefaultPort: string := "2202"

  /** The command sent when the connection comes up. */
  const InitialQuery: string := "< GET 0 ALL >"

  class LegacyInstance {
    var config: LegacyConfig
    /** `localVariables`: the last value written under each variable name. */
    var store: map<string, Value>
    /** The `receivebuffer` the `data` handler of the current socket closes over. */
    var receivebuffer: string
    /** `self.socket`; null while there is none. */
    var socket: Socket?

    /** How many times `status(STATUS_OK)` was reported. */
    ghost var okReports: nat
    /** Every `updateVariable` call, oldest first. */
    ghost var variableLog: seq<Write>
    /** Every `checkFeedbacks` call, oldest first. */
    ghost var feedbackLog: seq<string>
    /** Every rebuild of the definitions: `"actions"` for `actions()`, `"feedbacks"` for
        `init_feedbacks()`, oldest first. */
    ghost var refreshLog: seq<string>

    /** A socket is only ever held open, for the configured host and port, and only when a
        host is configured. */
    ghost predicate Valid()
      reads this, socket
    {
      socket != null ==>
        && !socket.destroyed && config.host != "" && config.port.Some?
        && socket.host == config.host && socket.port == config.port.value
    }

    /** The logs and the local variables after `lines`, cleaned and handled one by one,
        starting from the logs `v0`, `f0`, `r0` and the variables `s0`. */
    ghost predicate Handled(lines: seq<string>, v0: seq<Write>, f0: seq<string>, r0: seq<string>,
                            s0: map<string, Value>)
      reads this
    {
      && variableLog == v0 + LegacyLinesWrites(lines)
      && feedbackLog == f0 + LegacyLinesChecks(lines)
      && refreshLog == r0 + LegacyLinesRefreshes(lines)
      && store == Apply(s0, LegacyLinesWrites(lines))
    }

    /** The constructor, which exports the actions, followed by `init()`. */
    constructor (config: LegacyConfig)
      ensures Valid()
      ensures store == map[] && receivebuffer == "" && okReports == 1
      ensures this.config == LegacyConfig(config.host, Some(PortOrDefault(config)))
      ensures variableLog == [] && feedbackLog == [] && refreshLog == ["actions", "feedbacks"]
      ensures config.host == "" ==> socket == null
      ensures config.host != "" ==>
        socket != null && fresh(socket) && !socket.isConnected && socket.sent == []
    {
      this.config := config;
      store := map[];
      receivebuffer := "";
      socket := null;
      okReports := 0;
      variableLog := [];
      feedbackLog := [];
      refreshLog := ["actions"];
      new;
      okReports := okReports + 1;
      store := map[];
      InitModule();
      refreshLog := refreshLog + ["feedbacks"];
    }

    /** `updateConfig(config)`: the new configuration replaces the old one, Ok is reported,
        the local variables start over empty, the connection is rebuilt and the feedback
        definitions are exported again. */
    method UpdateConfig(c: LegacyConfig)
      requires Valid()
      modifies this, socket
      ensures Valid()
      ensures config == LegacyConfig(c.host, Some(PortOrDefault(c)))
      ensures store == map[] && receivebuffer == "" && okReports == old(okReports) + 1
      ensures variableLog == old(variableLog) && feedbackLog == old(feedbackLog)
      ensures refreshLog == old(refreshLog) + ["feedbacks"]
      ensures old(socket) != null ==> old(socket).destroyed
      ensures c.host == "" ==> socket == null
      ensures c.host != "" ==>
        socket != null && fresh(socket) && !socket.isConnected && socket.sent == []
    {
      config := c;
      okReports := okReports + 1;
      store := map[];
      InitModule();
      refreshLog := refreshLog + ["feedbacks"];
    }

    /** `init_module()`: a fresh receive buffer, the old socket destroyed and forgotten, the
        default port filled in when none is set, and a new socket when a host is set. */
    method InitModule()
      modifies this, socket
      ensures Valid()
      ensures config == LegacyConfig(old(config).host, Some(PortOrDefault(old(config))))
      ensures receivebuffer == ""
      ensures store == old(store) && okReports == old(okReports)
      ensures variableLog == old(variableLog) && feedbackLog == old(feedbackLog)
      ensures refreshLog == old(refreshLog)
      ensures old(socket) != null ==> old(socket).destroyed
      ensures config.host == "" ==> socket == null
      ensures config.host != "" ==>
        socket != null && fresh(socket) && socket.host == config.host
        && socket.port == config.port.value && !socket.isConnected && socket.sent == []
    {
      receivebuffer := "";
      if socket != null {
        socket.Destroy();
        socket := null;
      }
      if config.port.None? {
        config := config.(port := Some(DefaultPort));
      }
      if config.host != "" {
        socket := new Socket(config.host, config.port.value);
      }
    }

    /** `updateVariable(name, value)`: the host sees the write and the local copy keeps it. */
    method UpdateVariable(key: string, value: Value)
      modifies this
      ensures store == Apply(old(store), [Write(key, value)]) == old(store)[key := value]
      ensures variableLog == old(variableLog) + [Write(key, value)]
      ensures config == old(config) && receivebuffer == old(receivebuffer) && socket == old(socket)
      ensures okReports == old(okReports) && feedbackLog == old(feedbackLog)
      ensures refreshLog == old(refreshLog)
    {
      store := store[key := value];
      variableLog := variableLog + [Write(key, value)];
    }

    /** `updateVariable(name, value.trim())` inside the handler's `try`: a missing value makes
        `trim` throw, and nothing is written. */
    method UpdateTrimmed(key: string, value: JsValue)
      modifies this
      ensures store == Apply(old(store), TrimmedWrite(key, value))
      ensures variableLog == old(variableLog) + TrimmedWrite(key, value)
      ensures config == old(config) && receivebuffer == old(receivebuffer) && socket == old(socket)
      ensures okReports == old(okReports) && feedbackLog == old(feedbackLog)
      ensures refreshLog == old(refreshLog)
    {
      TrimmedWriteCases(store, key, value);
      if value.Text? {
        UpdateVariable(key, Str(Trim(value.s)));
      }
    }

    /** `processShureCommand(command)`: records the line, then, for a `REP` line, follows the
        `switch` on its field. */
    method ProcessShureCommand(command: string)
      modifies this
      ensures variableLog == old(variableLog) + LegacyWrites(command)
      ensures feedbackLog == old(feedbackLog) + LegacyChecks(command)
      ensures refreshLog == old(refreshLog) + LegacyRefreshes(command)
      ensures store == Apply(old(store), LegacyWrites(command))
      ensures config == old(config) && receivebuffer == old(receivebuffer) && socket == old(socket)
      ensures okReports == old(okReports)
    {
      UpdateVariable("last_command_received", Str(command));
      var report := ParseLegacy(command);
      ghost var recorded := [Write("last_command_received", Str(command))];
      assert LegacyWrites(command)
        == recorded + if report.Some? then LegacyReportWrites(report.value) else [];
      assert LegacyChecks(command) == if report.Some? then LegacyReportChecks(report.value) else [];
      assert LegacyRefreshes(command)
        == if report.Some? then LegacyReportRefreshes(report.value) else [];
      if report.Some? {
        Dispatch(report.value);
        AppendAssoc(old(variableLog), recorded, LegacyReportWrites(report.value));
        ApplyAppend(old(store), recorded, LegacyReportWrites(report.value));
      } else {
        assert variableLog == variableLog + [] && feedbackLog == feedbackLog + [];
        assert refreshLog == refreshLog + [];
      }
    }

    /** The `switch (commandVar)` of a `REP` line. */
    method Dispatch(r: LegacyReport)
      modifies this
      ensures variableLog == old(variableLog) + LegacyReportWrites(r)
      ensures feedbackLog == old(feedbackLog) + LegacyReportChecks(r)
      ensures refreshLog == old(refreshLog) + LegacyReportRefreshes(r)
      ensures store == Apply(old(store), LegacyReportWrites(r))
      ensures config == old(config) && receivebuffer == old(receivebuffer) && socket == old(socket)
      ensures okReports == old(okReports)
    {
      if !r.field.Text? {
        assert variableLog == variableLog + [] && feedbackLog == feedbackLog + [];
        assert refreshLog == refreshLog + [];
        return;
      }
      var f := r.field.s;
      if f == "MODEL" {
        UpdateTrimmed("model", r.value);
      } else if f == "SERIAL_NUM" {
        UpdateTrimmed("serial_number", r.value);
      } else if f == "FW_VER" {
        UpdateVariable("firmware_version", Raw(r.value));
      } else if f == "DEVICE_ID" {
        UpdateTrimmed("deviceid", r.value);
      } else if f == "CHAN_NAME" {
        UpdateTrimmed("channel_name_" + Render(r.num), r.value);
        if r.value.Text? {
          refreshLog := refreshLog + ["actions", "feedbacks"];
        }
      } else if f == "FLASH" {
        UpdateVariable("flash_state", Raw(r.value));
        feedbackLog := feedbackLog + ["flash_state"];
      } else if f == "PRESET" {
        UpdateVariable("preset_active", Raw(r.value));
      }
    }

    /** The socket's `connect` event: ask the device for its whole state, record it as the
        last command sent and export the actions. A `send` that throws (`sendThrows`) ends
        the handler before either. */
    method OnConnect(sendThrows: bool)
      requires Valid() && socket != null
      modifies this, socket
      ensures Valid() && socket == old(socket) && config == old(config)
      ensures socket.sent == old(socket.sent) + (if sendThrows then [] else [InitialQuery])
      ensures socket.isConnected == old(socket.isConnected)
      ensures sendThrows ==>
        store == old(store) && variableLog == old(variableLog) && refreshLog == old(refreshLog)
      ensures !sendThrows ==>
        store == old(store)["last_command_sent" := Str(InitialQuery)]
        && variableLog == old(variableLog) + [Write("last_command_sent", Str(InitialQuery))]
        && refreshLog == old(refreshLog) + ["actions"]
      ensures feedbackLog == old(feedbackLog) && receivebuffer == old(receivebuffer)
      ensures okReports == old(okReports)
    {
      socket.Send(InitialQuery, sendThrows);
      if !sendThrows {
        UpdateVariable("last_command_sent", Str(InitialQuery));
        refreshLog := refreshLog + ["actions"];
      }
    }

    /** `action(action)`: the command for a known action id is sent and recorded only on a
        connected socket (a `send` that throws skips the record); an unknown id, or no
        connection, changes nothing. */
    method Action(id: string, options: map<string, string>, sendThrows: bool)
      requires Valid()
      modifies this, socket
      ensures Valid() && socket == old(socket) && config == old(config)
      ensures feedbackLog == old(feedbackLog) && refreshLog == old(refreshLog)
      ensures receivebuffer == old(receivebuffer) && okReports == old(okReports)
      ensures Actions.LegacyCommand(id, options).None? || socket == null || !old(socket.isConnected) ==>
        store == old(store) && variableLog == old(variableLog) && (socket != null ==> unchanged(socket))
      ensures Actions.LegacyCommand(id, options).Some? && socket != null && old(socket.isConnected) ==>
        var cmd := Actions.LegacyCommand(id, options).value;
        && socket.sent == old(socket.sent) + (if sendThrows then [] else [cmd])
        && variableLog == old(variableLog) + (if sendThrows then [] else [Write("last_command_sent", Str(cmd))])
        && store == (if sendThrows then old(store) else old(store)["last_command_sent" := Str(cmd)])
        && socket.isConnected && !socket.destroyed
    {
      var cmd := Actions.LegacyCommand(id, options);
      if cmd.Some? {
        if socket != null && socket.isConnected {
          socket.Send(cmd.value, sendThrows);
          if !sendThrows {
            UpdateVariable("last_command_sent", Str(cmd.value));
          }
        }
      }
    }

    /** `destroy()`: only logs; the socket is left open. */
    method Destroy() returns (stillOpen: bool)
      requires Valid()
      ensures stillOpen <==> socket != null
      ensures socket != null ==> !socket.destroyed
    {
      stillOpen := socket != null;
    }

    /** The legacy flash feedback: lit while the stored flash state is the string `ON`. */
    predicate FlashLit()
      reads this
    {
      "flash_state" in store && store["flash_state"] == Str("ON")
    }

    /** The socket's `data` event: the chunk is appended to the buffer, every `>`-terminated
        piece from the last cut onwards is handed to `receiveline` in order, and the text
        after the last `>` is kept. */
    method OnData(chunk: string) returns (lines: seq<string>)
      modifies this
      ensures lines == LegacyFeed(old(receivebuffer), chunk).lines
      ensures receivebuffer == LegacyFeed(old(receivebuffer), chunk).buffer
      ensures variableLog == old(variableLog) + LegacyLinesWrites(lines)
      ensures feedbackLog == old(feedbackLog) + LegacyLinesChecks(lines)
      ensures refreshLog == old(refreshLog) + LegacyLinesRefreshes(lines)
      ensures store == Apply(old(store), LegacyLinesWrites(lines))
      ensures config == old(config) && socket == old(socket) && okReports == old(okReports)
    {
      receivebuffer := receivebuffer + chunk;
      lines := Emit();
    }

    /** The `while` loop of the `data` handler and the cut after it: from offset 0, every
        `>`-terminated piece is handled in order, then the text after the last `>` is kept. */
    method Emit() returns (lines: seq<string>)
      modifies this
      ensures lines == Segments(old(receivebuffer))
      ensures receivebuffer == Remainder(old(receivebuffer))
      ensures variableLog == old(variableLog) + LegacyLinesWrites(lines)
      ensures feedbackLog == old(feedbackLog) + LegacyLinesChecks(lines)
      ensures refreshLog == old(refreshLog) + LegacyLinesRefreshes(lines)
      ensures store == Apply(old(store), LegacyLinesWrites(lines))
      ensures config == old(config) && socket == old(socket) && okReports == old(okReports)
    {
      ghost var b := receivebuffer;
      lines := [];
      var offset := 0;
      var i := IndexOfFrom(receivebuffer, '>', offset);
      FindFrom(b, offset);
      CursorStart(b);
      while i != -1
        invariant receivebuffer == b && offset <= |b| && NextClose(b, offset, i)
        invariant Cursor(b, offset, lines)
        invariant Handled(lines, old(variableLog), old(feedbackLog), old(refreshLog), old(store))
        invariant config == old(config) && socket == old(socket) && okReports == old(okReports)
        decreases |b| - offset
      {
        var line;
        line, offset := EmitLine(b, offset, i, lines, old(variableLog), old(feedbackLog),
                                 old(refreshLog), old(store));
        lines := lines + [line];
        i := IndexOfFrom(receivebuffer, '>', offset);
        FindFrom(b, offset);
      }
      CursorEnd(b, offset, lines);
      receivebuffer := receivebuffer[offset..];
    }

    /** One turn of that loop: the piece from `offset` up to the `>` at `i` is cut out and
        handled, and the search goes on after that `>`. */
    method EmitLine(ghost b: string, offset: nat, i: nat, ghost lines: seq<string>,
                    ghost v0: seq<Write>, ghost f0: seq<string>, ghost r0: seq<string>,
                    ghost s0: map<string, Value>)
      returns (line: string, next: nat)
      requires receivebuffer == b && offset <= i < |b| && b[i] == '>' && '>' !in b[offset..i]
      requires Cursor(b, offset, lines) && Handled(lines, v0, f0, r0, s0)
      modifies this
      ensures receivebuffer == b && offset < next <= |b| && Cursor(b, next, lines + [line])
      ensures Handled(lines + [line], v0, f0, r0, s0)
      ensures config == old(config) && socket == old(socket) && okReports == old(okReports)
    {
      line, next := CutLine(receivebuffer, offset, i, lines);
      HandleLine(line, lines, v0, f0, r0, s0);
    }

    /** The cut of one turn of that loop: the piece from `offset` up to the `>` at `i`, and
        the offset after that `>`. The pieces still to come and the final remainder stay the
        same. */
    static method CutLine(b: string, offset: nat, i: nat, ghost lines: seq<string>)
      returns (line: string, next: nat)
      requires offset <= i < |b| && b[i] == '>' && '>' !in b[offset..i]
      requires Cursor(b, offset, lines)
      ensures offset < next <= |b| && Cursor(b, next, lines + [line])
    {
      line := Substr(b, offset, i - offset);
      next := i + 1;
      LegacyCut(b, offset, i, lines);
    }

    /** The `receiveline` handler on one emitted piece: the logs and the local variables move
        on by what the cleaned line does. */
    method HandleLine(line: string, ghost lines: seq<string>, ghost v0: seq<Write>,
                      ghost f0: seq<string>, ghost r0: seq<string>, ghost s0: map<string, Value>)
      requires Handled(lines, v0, f0, r0, s0)
      modifies this
      ensures Handled(lines + [line], v0, f0, r0, s0)
      ensures config == old(config) && socket == old(socket) && okReports == old(okReports)
      ensures receivebuffer == old(receivebuffer)
    {
      var command := ReceiveLine(line);
      ProcessShureCommand(command);
      LegacyLinesSnoc(lines, line);
      AppendAssoc(v0, LegacyLinesWrites(lines), LegacyWrites(command));
      AppendAssoc(f0, LegacyLinesChecks(lines), LegacyChecks(command));
      AppendAssoc(r0, LegacyLinesRefreshes(lines), LegacyRefreshes(command));
      ApplyAppend(s0, LegacyLinesWrites(lines), LegacyWrites(command));
    }
  }

  /** The port `init_module` leaves in the configuration. */
  function PortOrDefault(c: LegacyConfig): string {
    if c.port.Some? then c.port.value else DefaultPort
  }
}
