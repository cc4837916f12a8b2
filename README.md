# Shure P300 control module — a verified model

This project models the protocol engine of a control module for the Shure P300 audio
conferencing processor. The device speaks a line-oriented ASCII protocol over TCP. The module
sends frames such as `< GET ALL >` and `< SET PRESET 3 >`. The device answers with report
frames such as `< REP MODEL {P300} >` and `< REP 1 CHAN_NAME {Mic 1} >`. The module cuts
these reports out of the byte stream and files each value under a variable the host displays.

The repository holds two engines, and the model covers both:

- The current engine is `main.js` with its helpers `actions.js`, `feedbacks.js` and
  `variables.js`. It is a class `P300Instance` with a receive buffer, a state map and a
  socket. The model is the Dafny class `P300Module.P300Instance`. Its `data` handler
  (`OnData`, `Drain`) works on the `receivebuffer` field in a `while` loop. Its report
  handler (`ProcessShureCommand`, `Dispatch`) writes the `state` map. The connection methods
  (`Connect`, `Disconnect`, `ConfigUpdated`, `SendCmd`) replace the socket and report a
  status.
- The legacy engine is `index.js`. The model is the Dafny class `LegacyModule.LegacyInstance`.
  Its offset-based splitter (`Emit`) is a loop over an offset into the buffer. Its parser
  splits a line at every space. Its `action` switch sends a command only on a connected
  socket.

Each class runs steps whose results are stated by functions in a pure module.
`P300Protocol` serves the current engine and `LegacyProtocol` the legacy one. Every method is
proved to leave exactly what those functions say:

- the lines it emits;
- the buffer it keeps;
- the list of variable writes;
- the feedback re-evaluations;
- the resulting store.

The properties promised by the code are then proved about those functions:

- the buffer is an exact partition of the stream;
- every report field maps to a fixed key;
- the encoder and decoder of outbound commands round-trip;
- the feedback predicates behave as described below;
- every declared variable is distinct;
- every key the parser writes is declared.

Calls into the host are recorded as ghost logs: `setVariableValues`, `checkFeedbacks`,
`updateStatus` and the variable definitions. The socket is an abstract `Transport.Socket`
object. It records whether it is connected, whether it was destroyed, and the commands
written to it. Whether `send` throws is a parameter (`sendThrows`). The connection coming up
is the `OnConnect` method.

Modules:

| file | module | models |
|---|---|---|
| js_string.dfy | `JsString` | the JavaScript builtins both engines use: `indexOf`, `substring`, `substr`, `trim`, `split`, `replace` with a string pattern, `parseInt`, number-to-string |
| segments.dfy | `Framing` | the `>`-terminated segments of a buffer and the text after the last `>` |
| device_state.dfy | `DeviceState` | stored values and the fold of variable writes into the store |
| transport.dfy | `Transport` | the socket |
| p300_protocol.dfy | `P300Protocol` | the current engine's framer, report parser and `trimShureString` |
| p300_module.dfy | `P300Module` | `main.js` class `P300Instance` |
| legacy_protocol.dfy | `LegacyProtocol` | the legacy splitter, `receiveline` clean-up and `split`-based parser |
| legacy_module.dfy | `LegacyModule` | `index.js` `instance` |
| actions.dfy | `Actions` | `actions.js` command templates and the legacy `action` switch |
| feedbacks.dfy | `Feedbacks` | the `flash_state` and `preset_active` feedback callbacks |
| variables.dfy | `Variables` | `variables.js` variable-definition list |

The two feedback callbacks only read the state, and nothing else in the code makes them
write it. So they are modelled as predicates over the store (`Feedbacks.FlashActive`,
`Feedbacks.PresetActive`), and the type system guarantees they change nothing.

## Model

| member | source | states |
|---|---|---|
| JsString.IndexOf | main.js:67-68 | `indexOf(c)` is -1 exactly when `c` is absent; otherwise it is a position of `c` with no `c` before it |
| JsString.TrimStart | main.js:85 | the leading part `trimStart` removes is all white space, and what is left does not start with white space |
| JsString.TrimEnd | main.js:85 | the trailing part `trimEnd` removes is all white space, and what is left does not end with white space |
| JsString.TrimStartSuffix | main.js:85 | what `trimStart` leaves is a suffix of its input |
| JsString.TrimEndPrefix | main.js:85 | what `trimEnd` leaves is a prefix of its input |
| JsString.TrimEndPadding | main.js:226 | `trimEnd` of a text followed by white-space padding gives the text back, when the text does not itself end in white space |
| JsString.SplitPartition | index.js:116 | `split(sep)` gives one piece more than there are separators; no piece holds a separator; joining the pieces with the separator gives the input back |
| JsString.SplitAtFirst | index.js:122 | splitting at a first separator gives the text before it, followed by the split of the rest |
| JsString.IndexOfText | index.js:94 | `indexOf(p, from)` finds the first occurrence of `p` at or after `from`, or -1 when there is none |
| JsString.DigitPrefix | main.js:110 | the digits `parseInt` reads: the longest run of decimal digits at the start |
| JsString.ParseInt | main.js:156 | `parseInt` is a number exactly when, after leading white space and one sign, a digit follows (or `0x` and a hex digit) |
| JsString.ParseIntDigits | main.js:110 | a run of digits ended by a non-digit parses to its decimal value |
| JsString.ParseIntNaN | main.js:114 | text starting with a character that is neither white space, a sign nor a digit parses to NaN |
| JsString.NatToStringDigits | variables.js:15 | `String(n)` is a non-empty run of digits whose value is `n` and that has no leading zero |
| JsString.NatToStringInjective | variables.js:15-16 | different channel numbers print differently |
| JsString.ParseIntNatToString | main.js:110 | `parseInt(String(n)) === n` for every non-negative `n` |
| Framing.Partition | index.js:84-90 | the segments, each followed by `>`, then the text after the last `>`, spell the buffer exactly |
| Framing.RemainderOpen | index.js:90 | the text kept after the last `>` holds no `>` |
| Framing.SegmentsOpen | index.js:85 | no segment holds a `>` |
| Framing.SegmentCount | index.js:84 | there is one segment per `>` |
| Framing.SegmentsAppend | index.js:82-90 | cutting `x + y` is cutting `x`, then cutting its leftover followed by `y` |
| Framing.RemainderAppend | index.js:82-90 | the leftover of `x + y` is the leftover of `x`'s leftover followed by `y` |
| Framing.RemainderSuffix | main.js:78 | the text kept after the last `>` is a suffix of the buffer |
| DeviceState.ApplyAppend | main.js:219-223 | applying two batches of variable writes one after the other is applying their concatenation |
| DeviceState.ApplyUntouched | main.js:222 | a key no write names keeps its value, or stays absent |
| DeviceState.ApplyLast | main.js:222 | after a run of writes, the key of the last write holds that write's value |
| P300Protocol.LineOfSegment | main.js:77 | `substring(1, i - 1)` with clamping and swapping: the segment without its first and last character; a one-character segment is kept whole; an empty segment gives `>` |
| P300Protocol.LineAtFirstClose | main.js:77 | the line cut at the first `>` depends only on the text before that `>` |
| P300Protocol.Lines | main.js:76-80 | one line per segment, the `k`-th taken from the `k`-th segment |
| P300Protocol.Resync | main.js:72-74 | when the first `>` comes before the first `<`, everything before that `<` (which holds no `<`) is dropped; otherwise nothing is |
| P300Protocol.FeedBounded | main.js:61-65 | the buffer is flushed, with nothing emitted, exactly when the accumulated text exceeds 128 000 characters; at exactly 128 000 processing goes on; the kept buffer never exceeds the bound and is a suffix of the accumulated text |
| P300Protocol.FeedWaits | main.js:67-71 | with no `<` or no `>` nothing is emitted and the buffer is the old buffer plus the chunk |
| P300Protocol.FeedFrames | main.js:76-80 | on the normal path there is one line per `>` of the resynchronised buffer, each line is cut from its segment, the segments and the kept buffer spell that buffer, and the kept buffer holds no `>` |
| P300Protocol.MatchFieldValue | main.js:118 | a `([A-Z_]+) (.+)$` match is a field name, a space and a one-line value that rebuild the text |
| P300Protocol.MatchFieldValueAccepts | main.js:118 | every field-name, space, one-line-value text matches with exactly those parts |
| P300Protocol.MatchGlobal | main.js:118 | a match of `^REP ([A-Z_]+) (.+)$` rebuilds the line from `REP `, the field and the value |
| P300Protocol.MatchGlobalAccepts | main.js:118 | every `REP <field> <value>` line matches with exactly that field and value |
| P300Protocol.MatchChannel | main.js:126 | a match of `^REP (\d+) ([A-Z_]+) (.+)$` rebuilds the line from its digits, field and value |
| P300Protocol.MatchChannelAccepts | main.js:126 | every `REP <digits> <field> <value>` line matches with exactly those parts |
| P300Protocol.ParseReport | main.js:107-130 | a recognised report has a valid field name and a one-line value; a report without a channel number is exactly `REP <field> <value>` |
| P300Protocol.ParseGlobal | main.js:114-122 | `REP <field> <value>` is recognised as a report of that field and value with no channel number |
| P300Protocol.ParseChannel | main.js:110-130 | `REP <digits> <field> <value>` is recognised as a report for the channel its first two digits spell |
| P300Protocol.ParsedChannelReport | main.js:110-130 | conversely, every recognised channel report is `REP <digits> <field> <value>` for some non-empty digit run, filed under the channel its first two digits spell |
| P300Protocol.ChannelDigits | main.js:110 | `parseInt(command.substr(4, 2))` of a channel line is the value of its first two digits |
| P300Protocol.ChannelOfTwoDigits | main.js:110 | a channel number of two or more digits is filed under the value of its first two digits |
| P300Protocol.LongChannelTruncated | main.js:146 | `REP 123 CHAN_NAME x` writes `channel_name_12` |
| P300Protocol.TrimShureString | main.js:225-227 | a non-braced input comes back unchanged; a stripped result is non-empty and shorter than the input; it is the inner text from the first character on, followed inside the braces only by white space, and ends in a non-blank character unless it is one character long; a braced input is always stripped when the part the lazy group must take (its first inner character and everything up to the last non-blank one) holds no line terminator; the result is never longer than the input |
| P300Protocol.TrimShureStringKeepsMultiline | main.js:225-227 | a line terminator in the part the lazy group must take (the first inner character, or any before the last non-blank one) makes the match fail, leaving the text unchanged |
| P300Protocol.TrimShureStringNewlinePadding | main.js:225-227 | a line terminator in the padding is taken by `\s*`: `{a` + newline + `}` strips to `a` |
| P300Protocol.TrimShureStringBlank | main.js:225-227 | an all-blank inner text keeps its first character: `{ }` becomes a single space |
| P300Protocol.TrimShureStringUnwraps | main.js:225-227 | `{` + a one-line name + white-space padding + `}` strips to the name |
| P300Protocol.ReportWrites | main.js:132-162 | a report writes one variable when its field is one of the eight known fields, and none otherwise |
| P300Protocol.Writes | main.js:100-162 | a line first records itself as `last_command_received`, and writes a second variable exactly when it is a recognised report of a known field |
| P300Protocol.Checks | main.js:151-158 | a line asks for at most one feedback re-evaluation |
| P300Protocol.CommandRecorded | main.js:100 | after any line, `last_command_received` holds that line |
| P300Protocol.FieldKeyNotCommand | main.js:132-162 | none of the variables the field `switch` writes is `last_command_received` |
| P300Protocol.IgnoredLeavesStore | main.js:108-161 | a line that is not a report, matches neither pattern, or names an unknown field changes no variable except `last_command_received` and asks for no feedback |
| P300Protocol.ReportApplied | main.js:132-158 | a known field's value is stored under the field's key; only FLASH and PRESET re-evaluate a feedback, the one named after their key |
| P300Protocol.GlobalReportEffect | main.js:114-150 | a report without a channel number is stored under its field's key; for CHAN_NAME and AUDIO_MUTE that key ends in `NaN` |
| P300Protocol.ChannelReportEffect | main.js:145-150 | a channel report is stored under the key of the channel its first two digits spell |
| P300Protocol.NameFieldStored | main.js:133-147 | MODEL, SERIAL_NUM, FW_VER, DEVICE_ID and CHAN_NAME values are stored brace-stripped |
| P300Protocol.DrainStep | main.js:76-80 | one turn of the cutting loop keeps the lines still to come and the final buffer, and shrinks the buffer |
| P300Protocol.CutLine | main.js:77-78 | cutting at the first `>` splits off the first line and leaves the same final buffer |
| P300Protocol.FeedFromOpen | main.js:67-80 | a buffer that starts with `<` and holds a `>` is framed as it stands |
| P300Protocol.SpacedFrame | main.js:76-80 | a frame `< t >` whose text holds no `>` is cut to the line ` t`, leaving nothing |
| P300Protocol.FirstFrameAlone | main.js:56-82 | a single `< t >` chunk on an empty buffer, for any `t` without `>` short enough that the chunk is not flushed, emits ` t` and leaves an empty buffer |
| P300Protocol.ResyncAt | main.js:72-74 | a buffer whose first `>` comes before its first `<` is cut at that `<` |
| P300Protocol.FeedAfterFragment | main.js:72-74 | a `>`-ended fragment and a space in front of a frame are dropped before framing |
| P300Protocol.FragmentThenFrame | main.js:72-80 | `xx> < B >` on an empty buffer emits only ` B` |
| P300Protocol.ChunkBoundariesMatter | main.js:67-80 | `< A >xx> < B >` in one chunk emits ` A`, an empty line (the fragment `xx` without its first and last character) and `< B`, but cut after `< A >` it emits ` A` and then ` B` |
| P300Protocol.TrimReportLine | main.js:85 | `trim` takes off the space a spaced frame leaves in front of a report line, and nothing else |
| P300Protocol.UnspacedFrame | main.js:77 | a frame without inner spaces, such as `<REP MODEL {P300}>`, loses the character before its `>`, whenever the chunk is short enough not to be flushed |
| P300Protocol.UnspacedNameKeepsBrace | main.js:133-134 | so a name reported that way is stored with its opening brace (`{P300`) |
| P300Protocol.SpacedNameUnwrapped | main.js:133-147 | `REP MODEL {P300}` stores `P300` |
| P300Module.P300Instance.constructor | main.js:12-25 | `init`: empty store and buffer, eight channels, status Ok, the declared variable list, then a connection attempt: BadConfig and no socket for an incomplete configuration, otherwise Connecting and a fresh socket |
| P300Module.P300Instance.Connect | main.js:27-39 | an incomplete host or port only reports BadConfig and touches no socket; otherwise the old socket is destroyed, Connecting is reported, and a fresh unconnected socket for the configured endpoint is held; the receive buffer survives |
| P300Module.P300Instance.Disconnect | main.js:90-95 | the socket, if any, is destroyed and forgotten; without one nothing changes |
| P300Module.P300Instance.Destroy | main.js:171-174 | the module drops and destroys its socket |
| P300Module.P300Instance.ConfigUpdated | main.js:176-183 | the new configuration is kept; the connection is rebuilt exactly when the host or port changed (the old socket destroyed, a fresh unconnected one with nothing sent), and is left alone otherwise; the store, logs, channel count and definitions stay |
| P300Module.P300Instance.UpdateVariable | main.js:219-223 | the store maps the key to the value, the write is logged, and the store stays the fold of the write log |
| P300Module.P300Instance.CheckFeedbacks | main.js:153 | the feedback id is logged and nothing else changes |
| P300Module.P300Instance.ProcessShureCommand | main.js:97-168 | the logs grow by the line's writes and feedback checks, and the store by its writes |
| P300Module.P300Instance.Dispatch | main.js:132-162 | the `switch` performs exactly the report's writes and feedback checks |
| P300Module.P300Instance.SendCmd | main.js:229-244 | an empty command does nothing; without a connected socket only ConnectionFailure is reported and `last_command_sent` is unchanged; on a connected socket the command is written unless `send` throws, `last_command_sent` is recorded either way, and a throw reports ConnectionFailure |
| P300Module.P300Instance.OnConnect | main.js:49-53 | on a connected socket, `< GET 0 ALL >` is recorded as the last command sent and goes out unless `send` throws, which reports ConnectionFailure; without a connected socket only ConnectionFailure is reported and the socket is untouched; the buffer, channel count, definitions and feedback log stay |
| P300Module.P300Instance.RunAction | actions.js:6-59 | an action callback sends its command through `sendCmd`: on a connected socket it is recorded as the last command sent and goes out unless `send` throws, which reports ConnectionFailure; without one only ConnectionFailure is reported and the socket is untouched; the buffer, channel count, definitions and feedback log stay |
| P300Module.P300Instance.OnData | main.js:56-86 | the lines emitted and the buffer kept are those of `Feed`; each line, trimmed, is handled in order; the store stays the fold of the write log |
| P300Module.P300Instance.Drain | main.js:76-80 | the loop emits one line per segment of the buffer, handles each as it is cut, and keeps the text after the last `>` |
| P300Module.P300Instance.NextLine | main.js:76-86 | one loop turn cuts the next line and handles it, keeping the lines still to come |
| P300Module.P300Instance.TakeLine | main.js:77-78 | the line is `substring(1, i - 1)` and the buffer is `slice(i + 1)` for the first `>` at `i` |
| P300Module.P300Instance.HandleLine | main.js:84-86 | `receiveline` handles the trimmed line, so the logs and the store move on by that line's effects |
| LegacyProtocol.LegacyFeedPartition | index.js:80-90 | the emitted lines, each followed by `>`, and then the kept buffer, spell the old buffer plus the chunk; there is one line per `>`; neither the lines nor the kept buffer hold a `>` |
| LegacyProtocol.LegacyChunkIndependent | index.js:82-90 | feeding `a` and then `b` emits the same lines, and keeps the same buffer, as feeding `a + b` at once |
| LegacyProtocol.FindFrom | index.js:84 | `indexOf('>', offset)` finds the first `>` at or after `offset`, or -1 when there is none |
| LegacyProtocol.LegacyStep | index.js:84-86 | from `offset`, the piece up to the next `>` is `substr(offset, i - offset)`, and the rest is cut from after that `>` |
| LegacyProtocol.CursorStart | index.js:81-84 | before the loop every piece is still to come |
| LegacyProtocol.LegacyCut | index.js:85-86 | one turn moves exactly one piece from "to come" to "handled" |
| LegacyProtocol.CursorEnd | index.js:90 | when no `>` is left, every piece was handled and `substr(offset)` is the kept text |
| LegacyProtocol.ReceiveLineOpener | index.js:94 | `replace('< ', '')` takes off only the opener of a line that starts with `< `, then `trim` |
| LegacyProtocol.TrimmedWriteCases | index.js:130 | a value is written trimmed; a missing value writes nothing |
| LegacyProtocol.ParseOneChar | index.js:112 | `parseInt` of one character is a number exactly when it is a digit |
| LegacyProtocol.LegacyTests | index.js:110-114 | `substr(0, 3) === 'REP'` is a prefix test; a line is channel-scoped exactly when `parseInt(substr(4, 1))` is a number |
| LegacyProtocol.GlobalSplit | index.js:116 | `REP <f> <v>…` splits into `REP`, `f` and the pieces of the rest |
| LegacyProtocol.ChannelSplit | index.js:122 | `REP <d> <f> <v>…` splits into `REP`, `d`, `f` and the pieces of the rest |
| LegacyProtocol.LegacyParseGlobal | index.js:114-119 | `REP <field> <value> …` reads the field and only the next token as the value, with no number |
| LegacyProtocol.LegacyParseBare | index.js:116-118 | `REP <field>` alone reads an undefined value |
| LegacyProtocol.LegacyParseChannel | index.js:120-126 | `REP <digits> <field> <value> …` reads the whole digit token as the number, then the field and the next token |
| LegacyProtocol.LegacyRecorded | index.js:102-110 | every line is recorded first; a line not starting with `REP` does nothing else |
| LegacyProtocol.LegacyEffects | index.js:128-155 | a parsed report performs exactly the `switch`'s writes, feedback check and definition refreshes |
| LegacyProtocol.ChannelNameReport | index.js:141-142 | CHAN_NAME writes the trimmed value under `channel_name_` followed by the number as JavaScript renders it |
| LegacyProtocol.LegacyGlobalChannelName | index.js:141-145 | a CHAN_NAME report without a channel number writes `channel_name_null` and rebuilds the actions and feedbacks |
| LegacyProtocol.LegacyChannelName | index.js:141-142 | `REP 123 CHAN_NAME x` writes `channel_name_123` |
| LegacyProtocol.LegacyMissingValue | index.js:128-160 | a MODEL, SERIAL_NUM or DEVICE_ID report with no value throws inside `try`: only `last_command_received` is written |
| LegacyProtocol.LegacyValueTruncated | index.js:116-118 | `REP FW_VER 1.2 beta` stores `1.2`, untrimmed |
| LegacyProtocol.LegacyFlash | index.js:146-149 | FLASH stores the raw value and re-evaluates the flash feedback |
| LegacyProtocol.LegacyPreset | index.js:150-152 | PRESET stores the value as text and re-evaluates no feedback |
| LegacyModule.LegacyInstance.constructor | index.js:7-31 | construction and `init`: the actions exported, Ok reported, empty local variables, the default port filled in, a socket only when a host is set, the feedbacks exported |
| LegacyModule.LegacyInstance.UpdateConfig | index.js:33-42 | the new configuration is kept, Ok is reported, the local variables start over, the old socket is destroyed, a new one is opened when a host is set, and the feedbacks are exported again |
| LegacyModule.LegacyInstance.InitModule | index.js:45-60 | a fresh receive buffer; the old socket destroyed and forgotten; port 2202 when none is set; a fresh socket for the endpoint exactly when a host is set |
| LegacyModule.LegacyInstance.UpdateVariable | index.js:224-229 | the local copy maps the key to the value and the write is logged |
| LegacyModule.LegacyInstance.UpdateTrimmed | index.js:130 | a present value is written trimmed; a missing one writes nothing |
| LegacyModule.LegacyInstance.ProcessShureCommand | index.js:99-161 | the logs grow by the line's writes, feedback checks and refreshes, and the local variables by its writes |
| LegacyModule.LegacyInstance.Dispatch | index.js:128-155 | the `switch` performs exactly the report's writes, feedback check and refreshes |
| LegacyModule.LegacyInstance.OnConnect | index.js:71-77 | `< GET 0 ALL >` is sent straight to the socket, then recorded, then the actions are exported; a throwing `send` skips both |
| LegacyModule.LegacyInstance.Action | index.js:294-325 | a known action's command is sent and recorded, in the log and in the local variables, only on a connected socket; an unknown action, or no connection, changes nothing and reports no status |
| LegacyModule.LegacyInstance.Destroy | index.js:187-191 | `destroy` only logs: a held socket stays open |
| LegacyModule.LegacyInstance.OnData | index.js:80-91 | the lines emitted and the buffer kept are those of the legacy splitter on the old buffer plus the chunk, each line handled in order |
| LegacyModule.LegacyInstance.Emit | index.js:84-90 | the loop emits every `>`-terminated piece of the buffer and keeps the text after the last `>` |
| LegacyModule.LegacyInstance.EmitLine | index.js:84-87 | one turn cuts the next piece, handles it, and moves the offset past its `>` |
| LegacyModule.LegacyInstance.CutLine | index.js:85-86 | the piece is `substr(offset, i - offset)` and the offset moves past the `>` |
| LegacyModule.LegacyInstance.HandleLine | index.js:93-95 | `receiveline` handles the cleaned piece, so the logs and the local variables move on by its effects |
| Actions.Decode | actions.js:6-59 | a command read back as an action is exactly that action's command |
| Actions.DecodeCommand | actions.js:6-59 | every action's command reads back as that action, so no two actions send the same text |
| Actions.CommandInjective | actions.js:6-59 | different actions send different commands |
| Actions.OfferedPlain | actions.js:18-47 | the offered choices, `1`..`10` and `OFF`/`ON`, hold no angle bracket |
| Actions.CommandParts | actions.js:7-58 | a command is its head, its option and ` >`; the head holds the one `<`, the closing holds the one `>` |
| Actions.CommandShape | main.js:229-230 | a plain action's command is non-empty, starts with `< `, ends with ` >` and holds exactly one `<` and one `>`, so the empty-command guard never drops it |
| Actions.OfferedShape | actions.js:18-52 | every offered action sends such a well-formed frame |
| Actions.CommandFramed | main.js:76-80 | a plain command no longer than the framer's buffer limit, fed to the current framer, comes out as exactly one line and leaves nothing buffered |
| Actions.LegacyCommand | index.js:300-315 | a command the legacy switch builds is never empty |
| Actions.LegacyAgrees | index.js:300-315 | the legacy switch builds a command exactly for the four known ids, and it is the same text the current callbacks send |
| Feedbacks.AtMostOnePreset | feedbacks.js:49-54 | whatever the store holds, at most one preset choice lights up |
| Feedbacks.NoPresetWithoutNumber | feedbacks.js:49-54 | with no active preset, or a NaN one, no choice lights up |
| Feedbacks.PresetOfNumber | feedbacks.js:36-54 | a stored number lights up exactly the choice equal to it, so one outside 1..10 lights up none |
| Feedbacks.FlashAfterReport | feedbacks.js:14-19 | after `REP FLASH <v>` the flash feedback is on exactly when `v` is `ON`, and it is the feedback re-evaluated |
| Feedbacks.PresetAfterReport | feedbacks.js:49-54 | after `REP PRESET <v>` a choice lights up exactly when it equals `parseInt(v)`, and the preset feedback is re-evaluated |
| Variables.VariableDefinitions | variables.js:1-22 | the list built by the fixed entries and the two `push` loops is the declared list |
| Variables.ChannelIdsSnoc | variables.js:14-17 | channel `n + 1` adds its name and then its mute |
| Variables.PresetIdsSnoc | variables.js:19-21 | preset `n + 1` adds its name |
| Variables.DeclaredCount | variables.js:3-21 | the list has 18 + 2 × channelcount entries, 34 with eight channels |
| Variables.DeclaredOrder | variables.js:3-21 | the eight fixed ids come first in order; each channel's name is immediately followed by its mute; the preset names come last |
| Variables.DeclaredDistinct | variables.js:3-21 | no variable is declared twice, whatever the channel count |
| Variables.ChannelVariablesDeclared | variables.js:14-17 | channel `i`'s name and mute are declared exactly for `1 <= i <= channelcount` |
| Variables.ChannelKeyDeclared | main.js:145-150 | a CHAN_NAME or AUDIO_MUTE key is declared exactly when its channel number is in 1..channelcount; the `NaN` and negative keys are not |
| Variables.FixedKeyDeclared | variables.js:3-12 | the other known fields write fixed, declared variables |
| Variables.WritesDeclared | main.js:132-158 | every variable a line writes is declared, when channel reports name a channel in 1..channelcount |

## Left out

- Socket internals (TCPHelper and the legacy `tcp` helper) are not part of this model. The
  socket is an object that is connected or not, destroyed or not, and records what was sent.
  The network is out of scope, so `Establish` and `Drop` stand for the peer's events.
- The event-emitter plumbing is not modelled as events: `on`, `emit`, `status_change`,
  `error` and the forwarding of library status to the host. `receiveline` is emitted
  synchronously, so it is modelled as a direct call inside the cutting loop.
- Host SDK calls are ghost logs. This covers `setVariableValues`/`setVariable`,
  `checkFeedbacks`, `updateStatus`/`status`, and the re-export done by `actions()` and
  `init_feedbacks()`. `setVariableDefinitions` is modelled as the `definitions` field.
  `log`, `debug` and error messages are left out, since they do not change the state.
- The current engine's `updateActions()` and `updateFeedbacks()` (main.js:20-21) hand the
  host definitions built from `actions.js` and `feedbacks.js`; the constructor leaves no trace
  of them. Only `setVariableDefinitions` is recorded, as the `definitions` field.
- P300Protocol.Feed, P300Module.P300Instance.OnData and LegacyModule.LegacyInstance.OnData:
  a chunk is taken as already-decoded text, one Dafny character per Unicode scalar value.
  The source decodes each Buffer chunk as UTF-8 on its own at `+=`, so a multi-byte character
  split across two chunks becomes U+FFFD there and stays whole here. Lengths and positions
  (`.length`, `substring`, `substr`, and the `> 128000` flush) count characters here, where the
  source counts UTF-16 code units: a character outside the Basic Multilingual Plane counts 2
  toward the flush in the source and 1 here, and `substring` can split a surrogate pair in
  the source but not here. For the ASCII traffic the device sends, the two agree.
- P300Module.Config: an undefined and an empty host or port are both `""`. The source
  compares them with `!==` (main.js:179), so a change from undefined to `""` disconnects,
  reconnects and reports BadConfig again; the model sees no change and does nothing.
- UI definitions are out of scope: configuration fields, `Regex.IP`/`Regex.PORT`, labels,
  colours and `defaultStyle`, and the legacy `actions()`/`init_feedbacks()` object building.
- index.js `init_variables` (lines 194-221) is a UI declaration and is not modelled. It also
  declares `channel_mute` + `i` without the underscore that main.js's parser writes
  (`channel_mute_`, main.js:149); the legacy parser writes no mute variable.
- `async`, `runEntrypoint`, `instance_skel` inheritance and upgrade scripts are framework
  glue, left out.
- JsString.ParseInt: results are exact integers. The rounding of very long digit runs to a
  double and the sign of `-0` are not modelled.
- Feedbacks.PresetActive: the loose `==` between a stored string and a number uses a
  simplified `Number(s)`. It reads surrounding white space and decimal integers only;
  exponents, fractions, `0x` and `Infinity` are read as NaN.
- Regular expressions are hand-coded for the patterns the code uses:
  - the two report patterns;
  - `^\{(.+?)\s*\}$`;
  - `String.replace` with a string pattern.
- LegacyModule.LegacyInstance.store: in the source, `localVariables` is an array on the
  prototype, replaced by `init_variables`. Sharing it between instances through the
  prototype is not modelled; each instance owns its map.
- The legacy `status_change` forwarding and the `Network error` log are left out with the
  rest of the socket events.
- The legacy flash feedback (index.js:361-368) is only the predicate
  `LegacyModule.LegacyInstance.FlashLit`, with no contract of its own.

### Where the code and its description differ

The model follows the code in each case.

- Chunk boundaries do matter to the current engine's framer. Only the first frame of each
  chunk is resynchronised, so the claimed chunk-boundary invariance does not hold for
  main.js (`P300Protocol.ChunkBoundariesMatter`). It does hold for the legacy splitter
  (`LegacyProtocol.LegacyChunkIndependent`).
- The frame text is `substring(1, i - 1)`, not the text strictly between `<` and `>`:
  - the character before `>` is dropped;
  - the one after `<` is kept.
  So a frame without inner spaces, such as `<REP MODEL {P300}>`, stores `{P300`, not `P300`
  (`P300Protocol.UnspacedFrame`, `P300Protocol.UnspacedNameKeepsBrace`).
- The legacy engine files a CHAN_NAME report under the whole channel token
  (`channel_name_123`). A report without a channel number goes under `channel_name_null`.
- The legacy `destroy` only logs and leaves its socket open.
- The legacy engine stores PRESET as the raw text and FW_VER untrimmed. It re-evaluates
  only the flash feedback.
