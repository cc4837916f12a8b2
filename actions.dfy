/** The outbound commands: the four action callbacks of the current engine and the `action`
    switch of the legacy one, which build the same text. */
module Actions {
  import opened JsString
  import opened P300Protocol

  /** An action a user can trigger, with the text of its option. */
  datatype Action = GetAllStatus | PresetRecall(preset: string) | FlashLights(onoff: string) | Reboot

  /** The command the action's callback hands to `sendCmd`. */
  function Command(a: Action): string {
    match a
    case GetAllStatus => "< GET ALL >"
    case PresetRecall(p) => "< SET PRESET " + p + " >"
    case FlashLights(o) => "< SET FLASH " + o + " >"
    case Reboot => "< SET REBOOT >"
  }

  /** The preset choices the recall action offers. */
  const PresetChoices: seq<string> := ["1", "2", "3", "4", "5", "6", "7", "8", "9", "10"]

  /** The choices the flash action offers. */
  const FlashChoices: seq<string> := ["OFF", "ON"]

  /** An action whose option is one the user can pick. */
  predicate Offered(a: Action) {
    match a
    case PresetRecall(p) => p in PresetChoices
    case FlashLights(o) => o in FlashChoices
    case _ => true
  }

  /** An action whose option text holds no angle bracket. */
  predicate Plain(a: Action) {
    match a
    case PresetRecall(p) => '<' !in p && '>' !in p
    case FlashLights(o) => '<' !in o && '>' !in o
    case _ => true
  }

  /** The text the action puts between the brackets. */
  function Option(a: Action): string {
    match a
    case PresetRecall(p) => p
    case FlashLights(o) => o
    case _ => ""
  }

  /** Reads a command back: the action whose command it is, if any. */
  function Decode(cmd: string): (a: Option<Action>)
    ensures a.Some? ==> Command(a.value) == cmd
  {
    if cmd == "< GET ALL >" then Some(GetAllStatus)
    else if cmd == "< SET REBOOT >" then Some(Reboot)
    else if |cmd| >= 15 && cmd[..13] == "< SET PRESET " && cmd[|cmd| - 2..] == " >" then
      assert cmd == cmd[..13] + cmd[13..|cmd| - 2] + cmd[|cmd| - 2..];
      Some(PresetRecall(cmd[13..|cmd| - 2]))
    else if |cmd| >= 14 && cmd[..12] == "< SET FLASH " && cmd[|cmd| - 2..] == " >" then
      assert cmd == cmd[..12] + cmd[12..|cmd| - 2] + cmd[|cmd| - 2..];
      Some(FlashLights(cmd[12..|cmd| - 2]))
    else None
  }

  /** Every command reads back as the action that built it, so no two actions send the
      same text. */
  lemma DecodeCommand(a: Action)
    ensures Decode(Command(a)) == Some(a)
  {
    match a
    case GetAllStatus =>
    case Reboot =>
    case PresetRecall(p) =>
      var cmd := "< SET PRESET " + p + " >";
      assert cmd[..13] == "< SET PRESET " && cmd[|cmd| - 2..] == " >" && cmd[13..|cmd| - 2] == p;
      assert cmd[2] == 'S' && "< GET ALL >"[2] == 'G' && cmd[6] == 'P' && "< SET REBOOT >"[6] == 'R';
    case FlashLights(o) =>
      var cmd := "< SET FLASH " + o + " >";
      assert cmd[..12] == "< SET FLASH " && cmd[|cmd| - 2..] == " >" && cmd[12..|cmd| - 2] == o;
      assert cmd[2] == 'S' && "< GET ALL >"[2] == 'G' && cmd[6] == 'F' && "< SET REBOOT >"[6] == 'R';
      assert cmd[6] != "< SET PRESET "[6];
  }

  lemma CommandInjective(a: Action, b: Action)
    requires Command(a) == Command(b)
    ensures a == b
  {
    DecodeCommand(a);
    DecodeCommand(b);
  }

  /** The offered choices are plain. */
  lemma OfferedPlain(a: Action)
    requires Offered(a)
    ensures Plain(a)
  {
    match a
    case PresetRecall(p) =>
      assert p == "1" || p == "2" || p == "3" || p == "4" || p == "5"
        || p == "6" || p == "7" || p == "8" || p == "9" || p == "10";
    case FlashLights(o) =>
      assert o == "OFF" || o == "ON";
    case _ =>
  }

  /** The fixed words before the option's text. */
  function Head(a: Action): string {
    match a
    case GetAllStatus => "< GET ALL"
    case PresetRecall(_) => "< SET PRESET "
    case FlashLights(_) => "< SET FLASH "
    case Reboot => "< SET REBOOT"
  }

  /** A command is its head, its option's text and the closing `" >"`; the head holds the
      one `<` and no `>`, the closing holds the one `>`. */
  lemma CommandParts(a: Action)
    ensures Command(a) == Head(a) + Option(a) + " >"
    ensures Count(Head(a), '<') == 1 && Count(Head(a), '>') == 0 && HasPrefix(Head(a), "< ")
    ensures Count(" >", '<') == 0 && Count(" >", '>') == 1
  {
    CommandSplit(a);
    HeadCounts(a);
    CloseCounts();
  }

  lemma CommandSplit(a: Action)
    ensures Command(a) == Head(a) + Option(a) + " >"
  {
    match a
    case GetAllStatus =>
      assert Command(a) == "< GET ALL" + "" + " >";
    case Reboot =>
      assert Command(a) == "< SET REBOOT" + "" + " >";
    case PresetRecall(p) =>
    case FlashLights(o) =>
  }

  lemma HeadCounts(a: Action)
    ensures Count(Head(a), '<') == 1 && Count(Head(a), '>') == 0 && HasPrefix(Head(a), "< ")
  {
    var h := Head(a);
    assert h[..2] == "< " && '<' !in h[1..] && '>' !in h;
    OpenOnly(h);
  }

  lemma CloseCounts()
    ensures Count(" >", '<') == 0 && Count(" >", '>') == 1
  {
    var close := " >";
    assert close[1..] == ">" && ">"[1..] == [];
  }

  /** Text that opens with the only `<` it holds and holds no `>`. */
  lemma OpenOnly(h: string)
    requires h != [] && h[0] == '<' && '<' !in h[1..] && '>' !in h
    ensures Count(h, '<') == 1 && Count(h, '>') == 0
  {
    CountAbsent(h[1..], '<');
    CountAbsent(h, '>');
  }

  /** A plain action's command is non-empty, opens with `"< "`, closes with `" >"` and holds
      exactly one `<` and one `>`: it is one whole frame, and the empty-command guard of
      `sendCmd` never drops it. */
  lemma CommandShape(a: Action)
    requires Plain(a)
    ensures var cmd := Command(a);
      |cmd| >= 4 && HasPrefix(cmd, "< ") && cmd[|cmd| - 2..] == " >"
      && Count(cmd, '<') == 1 && Count(cmd, '>') == 1
  {
    CommandParts(a);
    var head, opt := Head(a), Option(a);
    CountAbsent(opt, '<');
    CountAbsent(opt, '>');
    CountAppend(head, opt, '<');
    CountAppend(head + opt, " >", '<');
    CountAppend(head, opt, '>');
    CountAppend(head + opt, " >", '>');
    var cmd := Command(a);
    assert cmd[..2] == head[..2];
    assert cmd[|cmd| - 2..] == " >";
  }

  /** Every offered action sends a well-formed frame. */
  lemma OfferedShape(a: Action)
    requires Offered(a)
    ensures var cmd := Command(a);
      |cmd| >= 4 && HasPrefix(cmd, "< ") && cmd[|cmd| - 2..] == " >"
      && Count(cmd, '<') == 1 && Count(cmd, '>') == 1
  {
    OfferedPlain(a);
    CommandShape(a);
  }

  /** Fed to the current engine's framer, a plain command comes out as exactly one line: the
      text between its brackets with the space after `<` kept, leaving nothing buffered. */
  lemma CommandFramed(a: Action)
    requires Plain(a) && |Command(a)| <= MaxBuffer
    ensures var cmd := Command(a);
      Feed("", cmd) == FeedResult([cmd[1..|cmd| - 2]], "", false)
  {
    var body := Body(a);
    BodyOf(a);
    FirstFrameAlone(body);
    Inner(body);
  }

  /** What the command holds between `"< "` and `" >"`. */
  function Body(a: Action): string {
    Head(a)[2..] + Option(a)
  }

  lemma BodyOf(a: Action)
    requires Plain(a)
    ensures Command(a) == "< " + Body(a) + " >"
    ensures '>' !in Body(a) && |Command(a)| == |Body(a)| + 4
  {
    CommandParts(a);
    var h, o := Head(a), Option(a);
    CountAbsent(h, '>');
    Regroup(h, o);
  }

  lemma Regroup(h: string, o: string)
    requires HasPrefix(h, "< ")
    ensures h + o + " >" == "< " + (h[2..] + o) + " >"
    ensures '>' !in h ==> '>' !in h[2..]
  {
    assert h == "< " + h[2..];
  }

  lemma Inner(body: string)
    ensures ("< " + body + " >")[1..|"< " + body + " >"| - 2] == " " + body
  {
  }

  // ---------------------------------------------------------------- the legacy `action` switch

  /** A JavaScript property read on the options object: a missing option prints as
      `undefined` when concatenated. */
  function OptionText(options: map<string, string>, name: string): string {
    if name in options then options[name] else "undefined"
  }

  /** The action a request names in the current engine, with the option text the callback
      would interpolate; None for an id no callback is registered under. */
  function Requested(id: string, options: map<string, string>): Option<Action> {
    if id == "get_all_status" then Some(GetAllStatus)
    else if id == "preset_recall" then Some(PresetRecall(OptionText(options, "preset")))
    else if id == "flash_lights" then Some(FlashLights(OptionText(options, "onoff")))
    else if id == "reboot" then Some(Reboot)
    else None
  }

  /** The command the legacy switch builds: None (`cmd` left undefined) for an unknown id. */
  function LegacyCommand(id: string, options: map<string, string>): (cmd: Option<string>)
    ensures cmd.Some? ==> cmd.value != []
  {
    match id
    case "get_all_status" => Some("< GET ALL >")
    case "preset_recall" => Some("< SET PRESET " + OptionText(options, "preset") + " >")
    case "flash_lights" => Some("< SET FLASH " + OptionText(options, "onoff") + " >")
    case "reboot" => Some("< SET REBOOT >")
    case _ => None
  }

  /** The two engines send the same text for the same request, and the legacy one sends
      nothing exactly when no action has that id. */
  lemma LegacyAgrees(id: string, options: map<string, string>)
    ensures LegacyCommand(id, options).Some? <==> Requested(id, options).Some?
    ensures Requested(id, options).Some? ==>
      LegacyCommand(id, options) == Some(Command(Requested(id, options).value))
  {
  }
}
