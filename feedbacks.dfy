/** The two boolean feedbacks of the current engine: whether the device is flashing and
    whether a chosen preset is the active one. Both only read the store. */
module Feedbacks {
  import opened JsString
  import opened DeviceState
  import opened P300Protocol

  /** The `flash_state` feedback: the stored flash state is exactly the string `ON`. */
  predicate FlashActive(state: map<string, Value>) {
    Get(state, "flash_state") == Str("ON")
  }

  /** `Number(s)` for the strings this model can read as numbers: surrounding white space is
      ignored, the empty string is 0, a run of decimal digits is its value, anything else NaN. */
  function StringToNumber(s: string): Option<int> {
    var t := Trim(s);
    if t == [] then Some(0)
    else if AllDigits(t) then Some(DecimalValue(t))
    else None
  }

  /** `v == n` in JavaScript for a number `n`: numbers compare by value, a string is converted
      to a number first, and NaN and `undefined` equal nothing. */
  predicate LooselyEquals(v: Value, n: int) {
    match v
    case Num(m) => m == n
    case Str(s) => StringToNumber(s) == Some(n)
    case NaN => false
    case Undefined => false
  }

  /** The `preset_active` feedback for the chosen preset number. */
  predicate PresetActive(state: map<string, Value>, preset: int) {
    LooselyEquals(Get(state, "preset_active"), preset)
  }

  /** The preset numbers the feedback lets the user choose. */
  predicate PresetChoice(preset: int) { 1 <= preset <= 10 }

  /** Whatever the store holds, at most one preset choice lights up. */
  lemma AtMostOnePreset(state: map<string, Value>, p: int, q: int)
    requires PresetActive(state, p) && PresetActive(state, q)
    ensures p == q
  {
  }

  /** With no active preset recorded, or a NaN one, no preset choice lights up. */
  lemma NoPresetWithoutNumber(state: map<string, Value>, preset: int)
    requires Get(state, "preset_active") == Undefined || Get(state, "preset_active") == NaN
    ensures !PresetActive(state, preset)
  {
  }

  /** A stored number lights up exactly the choice equal to it, so a preset outside 1..10
      lights up none. */
  lemma PresetOfNumber(state: map<string, Value>, n: int)
    requires Get(state, "preset_active") == Num(n)
    ensures forall p :: PresetActive(state, p) <==> p == n
    ensures !PresetChoice(n) ==> forall p :: PresetChoice(p) ==> !PresetActive(state, p)
  {
  }

  /** After the device reports `REP FLASH <v>`, the flash feedback is on exactly when `v` is
      `ON`, and it is the feedback the report asks the host to re-evaluate. */
  lemma FlashAfterReport(state: map<string, Value>, v: string)
    requires IsRestOfLine(v)
    ensures FlashActive(Apply(state, Writes("REP FLASH " + v))) <==> v == "ON"
    ensures Checks("REP FLASH " + v) == ["flash_state"]
  {
    assert "REP FLASH " + v == "REP " + "FLASH" + " " + v;
    assert IsFieldName("FLASH") by {
      assert forall k :: 0 <= k < |"FLASH"| ==> IsFieldChar("FLASH"[k]);
    }
    GlobalReportEffect(state, "FLASH", v);
    ParseGlobal("FLASH", v);
  }

  /** After the device reports `REP PRESET <v>`, a preset choice lights up exactly when it is
      the number `parseInt(v)` reads, and none does when that is NaN. */
  lemma PresetAfterReport(state: map<string, Value>, v: string, preset: int)
    requires IsRestOfLine(v)
    ensures PresetActive(Apply(state, Writes("REP PRESET " + v)), preset) <==> ParseInt(v) == Some(preset)
    ensures Checks("REP PRESET " + v) == ["preset_active"]
  {
    assert "REP PRESET " + v == "REP " + "PRESET" + " " + v;
    assert IsFieldName("PRESET") by {
      assert forall k :: 0 <= k < |"PRESET"| ==> IsFieldChar("PRESET"[k]);
    }
    GlobalReportEffect(state, "PRESET", v);
    ParseGlobal("PRESET", v);
  }
}
