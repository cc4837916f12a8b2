/** The current engine's instance (main.js `P300Instance`): its configuration, its device-state
    store, its receive buffer and its socket, and the handlers that change them. Calls into the
    host (variable values and definitions, feedback checks, status) are kept as ghost logs. */
module P300Module {
  import opened JsString
  import opened DeviceState
  import opened Framing
  import opened P300Protocol
  import opened Transport
  import Variables
  import Actions

  /** The connection states the instance reports to the host. */
  datatype Status = Ok | BadConfig | Connecting | ConnectionFailure

  /** The host and port the user configured; a missing or empty one is `""`. */
  datatype Config = Config(host: string, port: string)

  /** A configuration is complete when both its host and its port are set (truthy). */
  predicate Complete(c: Config) { c.host != "" && c.port != "" }

  /** The command sent when the connection comes up. */
  const InitialQuery: string := "< GET 0 ALL >"

  class P300Instance {
    var config: Config
    /** `this.state`: the last value written under each variable. */
    var state: map<string, Value>
    var receivebuffer: string
    var channelcount: nat
    /** `this.socket`; null while there is none. */
    var socket: Socket?

    /** Every `updateStatus` call, oldest first. */
    ghost var statusLog: seq<Status>
    /** Every `updateVariable` call, oldest first. */
    ghost var variableLog: seq<Write>
    /** Every `checkFeedbacks` call, oldest first. */
    ghost var feedbackLog: seq<string>
    /** The variable ids last passed to `setVariableDefinitions`. */
    ghost var definitions: seq<string>

    /** The buffer is within bounds, and a socket is only ever held open, for the configured
        endpoint, with a complete configuration. */
    ghost predicate Valid()
      reads this, socket
    {
      && |receivebuffer| <= MaxBuffer
      && (socket != null ==>
            !socket.destroyed && socket.host == config.host && socket.port == config.port
            && Complete(config))
    }

    /** The store is exactly what the recorded `updateVariable` calls leave. */
    ghost predicate Consistent()
      reads this
    {
      state == Apply(map[], variableLog)
    }

    /** `init(config)`: an empty store and buffer, eight channels, status Ok, the variable
        definitions declared, then a connection attempt. */
    constructor (config: Config)
      ensures Valid() && Consistent()
      ensures this.config == config && state == map[] && receivebuffer == "" && channelcount == 8
      ensures definitions == Variables.DeclaredIds(8)
      ensures variableLog == [] && feedbackLog == []
      ensures !Complete(config) ==> socket == null && statusLog == [Ok, BadConfig]
      ensures Complete(config) ==>
        socket != null && fresh(socket) && !socket.isConnected && socket.sent == []
        && statusLog == [Ok, Connecting]
    {
      this.config := config;
      state := map[];
      receivebuffer := "";
      channelcount := 8;
      socket := null;
      statusLog := [Ok];
      variableLog := [];
      feedbackLog := [];
      definitions := [];
      new;
      var ids := Variables.VariableDefinitions(channelcount);
      definitions := ids;
      Connect();
    }

    /** `connect()`: with an incomplete configuration only BadConfig is reported and no socket
        is touched; otherwise the old socket is destroyed and a fresh one is opened. */
    method Connect()
      requires Valid()
      modifies this, socket
      ensures Valid()
      ensures config == old(config) && state == old(state) && receivebuffer == old(receivebuffer)
      ensures channelcount == old(channelcount) && definitions == old(definitions)
      ensures variableLog == old(variableLog) && feedbackLog == old(feedbackLog)
      ensures !Complete(config) ==>
        statusLog == old(statusLog) + [BadConfig] && socket == old(socket) == null
      ensures Complete(config) ==>
        statusLog == old(statusLog) + [Connecting]
        && socket != null && fresh(socket) && !socket.isConnected && socket.sent == []
        && (old(socket) != null ==> old(socket).destroyed && old(socket).sent == old(socket.sent))
    {
      if config.host == "" || config.port == "" {
        statusLog := statusLog + [BadConfig];
        return;
      }
      Disconnect();
      statusLog := statusLog + [Connecting];
      socket := new Socket(config.host, config.port);
    }

    /** `disconnect()`: destroys and forgets the socket, if there is one. */
    method Disconnect()
      requires Valid()
      modifies this, socket
      ensures Valid() && socket == null
      ensures config == old(config) && state == old(state) && receivebuffer == old(receivebuffer)
      ensures channelcount == old(channelcount) && definitions == old(definitions)
      ensures statusLog == old(statusLog) && variableLog == old(variableLog)
      ensures feedbackLog == old(feedbackLog)
      ensures old(socket) != null ==> old(socket).destroyed && old(socket).sent == old(socket.sent)
    {
      if socket != null {
        socket.Destroy();
        socket := null;
      }
    }

    /** `destroy()`: the module is removed, and its socket closed. */
    method Destroy()
      requires Valid()
      modifies this, socket
      ensures Valid() && socket == null
      ensures config == old(config) && state == old(state) && receivebuffer == old(receivebuffer)
      ensures channelcount == old(channelcount) && definitions == old(definitions)
      ensures statusLog == old(statusLog) && variableLog == old(variableLog)
      ensures feedbackLog == old(feedbackLog)
      ensures old(socket) != null ==> old(socket).destroyed && old(socket).sent == old(socket.sent)
    {
      Disconnect();
    }

    /** `configUpdated(config)`: the new configuration is kept, and the connection is rebuilt
        only when the host or the port changed. */
    method ConfigUpdated(newConfig: Config)
      requires Valid()
      modifies this, socket
      ensures Valid() && config == newConfig
      ensures state == old(state) && receivebuffer == old(receivebuffer)
      ensures variableLog == old(variableLog) && feedbackLog == old(feedbackLog)
      ensures channelcount == old(channelcount) && definitions == old(definitions)
      ensures newConfig == old(config) ==>
        socket == old(socket) && statusLog == old(statusLog) && (socket != null ==> unchanged(socket))
      ensures newConfig != old(config) && !Complete(newConfig) ==>
        socket == null && statusLog == old(statusLog) + [BadConfig]
      ensures newConfig != old(config) && Complete(newConfig) ==>
        socket != null && fresh(socket) && socket.host == newConfig.host && socket.port == newConfig.port
        && !socket.isConnected && socket.sent == []
        && statusLog == old(statusLog) + [Connecting]
      ensures newConfig != old(config) && old(socket) != null ==>
        old(socket).destroyed && old(socket).sent == old(socket.sent)
    {
      var oldconfig := config;
      if newConfig.host != oldconfig.host || newConfig.port != oldconfig.port {
        Disconnect();
        config := newConfig;
        Connect();
      } else {
        config := newConfig;
      }
    }

    /** `updateVariable(name, value)`: the host sees the write and the store keeps it. */
    method UpdateVariable(key: string, value: Value)
      requires Valid()
      modifies this
      ensures Valid()
      ensures state == Apply(old(state), [Write(key, value)]) == old(state)[key := value]
      ensures variableLog == old(variableLog) + [Write(key, value)]
      ensures old(Consistent()) ==> Consistent()
      ensures config == old(config) && receivebuffer == old(receivebuffer) && socket == old(socket)
      ensures channelcount == old(channelcount) && definitions == old(definitions)
      ensures statusLog == old(statusLog) && feedbackLog == old(feedbackLog)
    {
      state := state[key := value];
      variableLog := variableLog + [Write(key, value)];
      assert variableLog[..|variableLog| - 1] == old(variableLog);
      assert [Write(key, value)][..0] == [];
    }

    /** `checkFeedbacks(id)`. */
    method CheckFeedbacks(id: string)
      modifies this
      ensures feedbackLog == old(feedbackLog) + [id]
      ensures config == old(config) && state == old(state) && receivebuffer == old(receivebuffer)
      ensures socket == old(socket) && channelcount == old(channelcount) && definitions == old(definitions)
      ensures statusLog == old(statusLog) && variableLog == old(variableLog)
    {
      feedbackLog := feedbackLog + [id];
    }

    /** `processShureCommand(command)`: records the line, then, for a recognised report, stores
        its value under the field's variable and re-evaluates the feedback FLASH and PRESET
        drive. Every other line leaves the rest of the store alone. */
    method ProcessShureCommand(command: string)
      requires Valid()
      modifies this
      ensures Valid()
      ensures variableLog == old(variableLog) + Writes(command)
      ensures feedbackLog == old(feedbackLog) + Checks(command)
      ensures state == Apply(old(state), Writes(command))
      ensures config == old(config) && receivebuffer == old(receivebuffer) && socket == old(socket)
      ensures channelcount == old(channelcount) && definitions == old(definitions)
      ensures statusLog == old(statusLog)
    {
      UpdateVariable("last_command_received", Str(command));
      var report := ParseReport(command);
      ghost var reported := if report.Some? then ReportWrites(report.value) else [];
      assert Writes(command) == [Write("last_command_received", Str(command))] + reported;
      assert Checks(command) == if report.Some? then ReportChecks(report.value) else [];
      ghost var recorded := [Write("last_command_received", Str(command))];
      if report.Some? {
        Dispatch(report.value);
        AppendAssoc(old(variableLog), recorded, reported);
        ApplyAppend(old(state), recorded, reported);
      } else {
        assert variableLog == variableLog + [] && feedbackLog == feedbackLog + [];
        assert Apply(state, []) == state;
      }
    }

    /** The `switch` on the field of a recognised report. */
    method Dispatch(r: Report)
      requires Valid()
      modifies this
      ensures Valid()
      ensures variableLog == old(variableLog) + ReportWrites(r)
      ensures feedbackLog == old(feedbackLog) + ReportChecks(r)
      ensures state == Apply(old(state), ReportWrites(r))
      ensures config == old(config) && receivebuffer == old(receivebuffer) && socket == old(socket)
      ensures channelcount == old(channelcount) && definitions == old(definitions)
      ensures statusLog == old(statusLog)
    {
      var field, value := r.field, r.value;
      if field == "MODEL" {
        UpdateVariable("model", Str(TrimShureString(value)));
      } else if field == "SERIAL_NUM" {
        UpdateVariable("serial_number", Str(TrimShureString(value)));
      } else if field == "FW_VER" {
        UpdateVariable("firmware_version", Str(TrimShureString(value)));
      } else if field == "DEVICE_ID" {
        UpdateVariable("deviceid", Str(TrimShureString(value)));
      } else if field == "CHAN_NAME" {
        UpdateVariable("channel_name_" + NumberToString(r.channel), Str(TrimShureString(value)));
      } else if field == "AUDIO_MUTE" {
        UpdateVariable("channel_mute_" + NumberToString(r.channel), Str(value));
      } else if field == "FLASH" {
        UpdateVariable("flash_state", Str(value));
        CheckFeedbacks("flash_state");
      } else if field == "PRESET" {
        UpdateVariable("preset_active", FromNumber(ParseInt(value)));
        CheckFeedbacks("preset_active");
      }
    }

    /** `sendCmd(cmd)`: an empty command is ignored. On a connected socket the command is
        written (`sendThrows` stands for `send` raising, which reports ConnectionFailure) and
        recorded as the last command sent either way; without one only ConnectionFailure is
        reported. */
    method SendCmd(cmd: string, sendThrows: bool)
      requires Valid() && Consistent()
      modifies this, socket
      ensures Valid() && Consistent()
      ensures socket == old(socket) && config == old(config) && receivebuffer == old(receivebuffer)
      ensures channelcount == old(channelcount) && definitions == old(definitions)
      ensures feedbackLog == old(feedbackLog)
      ensures cmd == [] ==>
        statusLog == old(statusLog) && variableLog == old(variableLog)
        && (socket != null ==> unchanged(socket))
      ensures cmd != [] && (socket == null || !old(socket.isConnected)) ==>
        statusLog == old(statusLog) + [ConnectionFailure] && variableLog == old(variableLog)
        && (socket != null ==> unchanged(socket))
      ensures cmd != [] && socket != null && old(socket.isConnected) ==>
        variableLog == old(variableLog) + [Write("last_command_sent", Str(cmd))]
        && statusLog == old(statusLog) + (if sendThrows then [ConnectionFailure] else [])
        && socket.sent == old(socket.sent) + (if sendThrows then [] else [cmd])
        && socket.isConnected && !socket.destroyed
    {
      if cmd == [] {
        return;
      }
      if socket != null && socket.isConnected {
        socket.Send(cmd, sendThrows);
        if sendThrows {
          statusLog := statusLog + [ConnectionFailure];
        }
        UpdateVariable("last_command_sent", Str(cmd));
      } else {
        statusLog := statusLog + [ConnectionFailure];
      }
    }

    /** The socket's `connect` event: ask the device for its whole state. */
    method OnConnect(sendThrows: bool)
      requires Valid() && Consistent()
      modifies this, socket
      ensures Valid() && Consistent() && socket == old(socket) && config == old(config)
      ensures receivebuffer == old(receivebuffer) && channelcount == old(channelcount)
      ensures definitions == old(definitions) && feedbackLog == old(feedbackLog)
      ensures socket != null && old(socket.isConnected) ==>
        socket.sent == old(socket.sent) + (if sendThrows then [] else [InitialQuery])
        && variableLog == old(variableLog) + [Write("last_command_sent", Str(InitialQuery))]
        && statusLog == old(statusLog) + (if sendThrows then [ConnectionFailure] else [])
        && socket.isConnected && !socket.destroyed
      ensures socket == null || !old(socket.isConnected) ==>
        variableLog == old(variableLog) && statusLog == old(statusLog) + [ConnectionFailure]
        && (socket != null ==> unchanged(socket))
    {
      SendCmd(InitialQuery, sendThrows);
    }

    /** An action callback: the action's command goes through `sendCmd`. */
    method RunAction(a: Actions.Action, sendThrows: bool)
      requires Valid() && Consistent()
      modifies this, socket
      ensures Valid() && Consistent() && socket == old(socket) && config == old(config)
      ensures receivebuffer == old(receivebuffer) && channelcount == old(channelcount)
      ensures definitions == old(definitions) && feedbackLog == old(feedbackLog)
      ensures socket != null && old(socket.isConnected) ==>
        variableLog == old(variableLog) + [Write("last_command_sent", Str(Actions.Command(a)))]
        && socket.sent == old(socket.sent) + (if sendThrows then [] else [Actions.Command(a)])
        && statusLog == old(statusLog) + (if sendThrows then [ConnectionFailure] else [])
        && socket.isConnected && !socket.destroyed
      ensures socket == null || !old(socket.isConnected) ==>
        variableLog == old(variableLog) && statusLog == old(statusLog) + [ConnectionFailure]
        && (socket != null ==> unchanged(socket))
    {
      Actions.CommandParts(a);
      SendCmd(Actions.Command(a), sendThrows);
    }

    /** The socket's `data` event: the chunk is appended to the receive buffer, an over-long
        buffer is flushed, a leading fragment is dropped, and every `>`-terminated line is cut
        out and handled (`receiveline`, trimmed, then `processShureCommand`) in order. */
    method OnData(chunk: string) returns (lines: seq<string>)
      requires Valid() && Consistent()
      modifies this
      ensures Valid() && Consistent()
      ensures lines == Feed(old(receivebuffer), chunk).lines
      ensures receivebuffer == Feed(old(receivebuffer), chunk).buffer
      ensures variableLog == old(variableLog) + LinesWrites(lines)
      ensures feedbackLog == old(feedbackLog) + LinesChecks(lines)
      ensures state == Apply(old(state), LinesWrites(lines))
      ensures config == old(config) && socket == old(socket) && statusLog == old(statusLog)
      ensures channelcount == old(channelcount) && definitions == old(definitions)
    {
      lines := [];
      receivebuffer := receivebuffer + chunk;
      if |receivebuffer| > 128000 {
        receivebuffer := "";
        return;
      }
      var start := IndexOf(receivebuffer, '<');
      var end := IndexOf(receivebuffer, '>');
      if start == -1 || end == -1 {
        return;
      }
      if end < start {
        receivebuffer := receivebuffer[start..];
      }
      assert receivebuffer == Resync(old(receivebuffer) + chunk);
      lines := Drain();
      ApplyAppend(map[], old(variableLog), LinesWrites(lines));
    }

    /** The `while` loop of the `data` handler: cut the buffer at its first `>` until none is
        left, handling each line as it is cut. */
    method Drain() returns (lines: seq<string>)
      requires Valid()
      modifies this
      ensures Valid()
      ensures lines == Lines(Segments(old(receivebuffer)))
      ensures receivebuffer == Remainder(old(receivebuffer))
      ensures variableLog == old(variableLog) + LinesWrites(lines)
      ensures feedbackLog == old(feedbackLog) + LinesChecks(lines)
      ensures state == Apply(old(state), LinesWrites(lines))
      ensures config == old(config) && socket == old(socket) && statusLog == old(statusLog)
      ensures channelcount == old(channelcount) && definitions == old(definitions)
    {
      lines := [];
      ghost var r := receivebuffer;
      var i := IndexOf(receivebuffer, '>');
      while i != -1
        invariant i == IndexOf(receivebuffer, '>')
        invariant Draining(receivebuffer, r, lines)
        invariant Valid()
        invariant variableLog == old(variableLog) + LinesWrites(lines)
        invariant feedbackLog == old(feedbackLog) + LinesChecks(lines)
        invariant state == Apply(old(state), LinesWrites(lines))
        invariant config == old(config) && socket == old(socket) && statusLog == old(statusLog)
        invariant channelcount == old(channelcount) && definitions == old(definitions)
        decreases |receivebuffer|
      {
        var line := NextLine(r, lines, old(variableLog), old(feedbackLog), old(state));
        lines := lines + [line];
        i := IndexOf(receivebuffer, '>');
      }
      NoClose(receivebuffer);
      assert lines + [] == lines;
    }

    /** One turn of that loop: the first line is cut from the buffer and handled. The lines
        still to come and the final buffer stay the same; the logs and the store move on by
        what the line does. */
    method NextLine(ghost r: string, ghost lines: seq<string>, ghost v0: seq<Write>,
                    ghost f0: seq<string>, ghost s0: map<string, Value>)
      returns (line: string)
      requires Valid() && IndexOf(receivebuffer, '>') != -1
      requires Draining(receivebuffer, r, lines)
      requires variableLog == v0 + LinesWrites(lines) && feedbackLog == f0 + LinesChecks(lines)
      requires state == Apply(s0, LinesWrites(lines))
      modifies this
      ensures Valid()
      ensures Draining(receivebuffer, r, lines + [line])
      ensures |receivebuffer| < |old(receivebuffer)|
      ensures variableLog == v0 + LinesWrites(lines + [line])
      ensures feedbackLog == f0 + LinesChecks(lines + [line])
      ensures state == Apply(s0, LinesWrites(lines + [line]))
      ensures config == old(config) && socket == old(socket) && statusLog == old(statusLog)
      ensures channelcount == old(channelcount) && definitions == old(definitions)
    {
      line := TakeLine(r, lines);
      HandleLine(line, lines, v0, f0, s0);
    }

    /** `line = buf.substring(1, i - 1)` and `buf = buf.slice(i + 1)` for the first `>` at `i`:
        the line cut is the next of the lines still to come. */
    method TakeLine(ghost r: string, ghost lines: seq<string>) returns (line: string)
      requires Valid() && IndexOf(receivebuffer, '>') != -1
      requires Draining(receivebuffer, r, lines)
      modifies this
      ensures Valid()
      ensures var i := IndexOf(old(receivebuffer), '>');
        line == Substring(old(receivebuffer), 1, i - 1) && receivebuffer == old(receivebuffer)[i + 1..]
      ensures Draining(receivebuffer, r, lines + [line]) && |receivebuffer| < |old(receivebuffer)|
      ensures variableLog == old(variableLog) && feedbackLog == old(feedbackLog) && state == old(state)
      ensures config == old(config) && socket == old(socket) && statusLog == old(statusLog)
      ensures channelcount == old(channelcount) && definitions == old(definitions)
    {
      DrainStep(lines, receivebuffer, r);
      var i := IndexOf(receivebuffer, '>');
      line := Substring(receivebuffer, 1, i - 1);
      receivebuffer := receivebuffer[i + 1..];
    }

    /** The trimmed line handled: the logs and the store move on by what it does. */
    method HandleLine(line: string, ghost lines: seq<string>, ghost v0: seq<Write>,
                      ghost f0: seq<string>, ghost s0: map<string, Value>)
      requires Valid()
      requires variableLog == v0 + LinesWrites(lines) && feedbackLog == f0 + LinesChecks(lines)
      requires state == Apply(s0, LinesWrites(lines))
      modifies this
      ensures Valid()
      ensures variableLog == v0 + LinesWrites(lines + [line])
      ensures feedbackLog == f0 + LinesChecks(lines + [line])
      ensures state == Apply(s0, LinesWrites(lines + [line]))
      ensures config == old(config) && socket == old(socket) && statusLog == old(statusLog)
      ensures channelcount == old(channelcount) && definitions == old(definitions)
      ensures receivebuffer == old(receivebuffer)
    {
      ProcessShureCommand(Trim(line));
      LinesSnoc(lines, line);
      AppendAssoc(v0, LinesWrites(lines), Writes(Trim(line)));
      AppendAssoc(f0, LinesChecks(lines), Checks(Trim(line)));
      ApplyAppend(s0, LinesWrites(lines), Writes(Trim(line)));
    }
  }
}
