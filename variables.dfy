/** The variables the current engine declares to the host (`UpdateVariableDefinitions`):
    eight fixed ones, a name and a mute variable per channel, and a name variable per preset. */
module Variables {
  import opened JsString
  import opened DeviceState
  import opened P300Protocol

  /** The variables that exist whatever the channel count, in declaration order. */
  const FixedIds: seq<string> := [
    "model", "serial_number", "firmware_version", "deviceid",
    "flash_state", "last_command_sent", "last_command_received", "preset_active"
  ]

  /** The presets the device stores. */
  const PresetCount: nat := 10

  function ChannelName(i: nat): string { "channel_name_" + NatToString(i) }
  function ChannelMute(i: nat): string { "channel_mute_" + NatToString(i) }
  function PresetName(i: nat): string { "preset_name_" + NatToString(i) }

  /** The channel the `k`-th per-channel variable belongs to, counting from 0: `k / 2`. */
  function Pair(k: nat): nat {
    if k < 2 then 0 else Pair(k - 2) + 1
  }

  /** Whether the `k`-th per-channel variable is a name (even `k`) rather than a mute. */
  predicate IsNameSlot(k: nat) {
    if k < 2 then k == 0 else IsNameSlot(k - 2)
  }

  /** Position `2 * j` holds a name, `2 * j + 1` a mute, both of the channel numbered `j + 1`,
      and every position is one of the two. */
  lemma {:induction false} PairOf(j: nat)
    ensures Pair(2 * j) == j && IsNameSlot(2 * j)
    ensures Pair(2 * j + 1) == j && !IsNameSlot(2 * j + 1)
  {
    if j > 0 { PairOf(j - 1); }
  }

  lemma {:induction false} SlotOf(k: nat)
    ensures k == 2 * Pair(k) + (if IsNameSlot(k) then 0 else 1)
  {
    if k >= 2 { SlotOf(k - 2); }
  }

  /** The `k`-th per-channel variable: channel `k / 2 + 1`'s name, then its mute. */
  function ChannelId(k: nat): string {
    if IsNameSlot(k) then ChannelName(Pair(k) + 1) else ChannelMute(Pair(k) + 1)
  }

  /** The per-channel variables of channels `1..n`, a channel's name before its mute. */
  function ChannelIds(n: nat): seq<string> {
    seq(2 * n, k requires 0 <= k => ChannelId(k))
  }

  /** The preset name variables of presets `1..n`. */
  function PresetIds(n: nat): seq<string> {
    seq(n, k requires 0 <= k => PresetName(k + 1))
  }

  /** Every variable id declared for `channelcount` channels, in declaration order. */
  function DeclaredIds(channelcount: nat): seq<string> {
    FixedIds + ChannelIds(channelcount) + PresetIds(PresetCount)
  }

  /** Channel `n + 1` adds its name and then its mute to the list of channels `1..n`. */
  lemma ChannelIdsSnoc(n: nat)
    ensures ChannelIds(n + 1) == ChannelIds(n) + [ChannelName(n + 1), ChannelMute(n + 1)]
  {
    var a, b := ChannelIds(n + 1), ChannelIds(n) + [ChannelName(n + 1), ChannelMute(n + 1)];
    ChannelIdOf(2 * n, n + 1);
    assert |a| == |b| == 2 * n + 2;
    forall k | 0 <= k < 2 * n + 2
      ensures a[k] == b[k]
    {
      if k < 2 * n {
        assert a[k] == ChannelId(k) == b[k];
      }
    }
  }

  lemma PresetIdsSnoc(n: nat)
    ensures PresetIds(n + 1) == PresetIds(n) + [PresetName(n + 1)]
  {
  }

  /** The definition list the source builds: the fixed entries, then a loop over the
      channels pushing two entries each, then a loop over the presets. */
  method VariableDefinitions(channelcount: nat) returns (ids: seq<string>)
    ensures ids == DeclaredIds(channelcount)
  {
    ids := FixedIds;
    var i := 1;
    while i <= channelcount
      invariant 1 <= i <= channelcount + 1
      invariant ids == FixedIds + ChannelIds(i - 1)
    {
      ChannelIdsSnoc(i - 1);
      ids := ids + ["channel_name_" + NatToString(i), "channel_mute_" + NatToString(i)];
      i := i + 1;
    }
    var j := 1;
    while j <= PresetCount
      invariant 1 <= j <= PresetCount + 1
      invariant ids == FixedIds + ChannelIds(channelcount) + PresetIds(j - 1)
    {
      PresetIdsSnoc(j - 1);
      ids := ids + ["preset_name_" + NatToString(j)];
      j := j + 1;
    }
  }

  /** Eight fixed variables, two per channel and ten preset names: 34 with the default eight
      channels. */
  lemma DeclaredCount(channelcount: nat)
    ensures |DeclaredIds(channelcount)| == 18 + 2 * channelcount
    ensures |DeclaredIds(8)| == 34
  {
  }

  /** The declared list, position by position: fixed ids, then channel `i`'s name at
      `8 + 2 * (i - 1)` and its mute right after, then the preset names. */
  lemma DeclaredOrder(channelcount: nat)
    ensures DeclaredIds(channelcount)[..8] == FixedIds
    ensures forall i :: 1 <= i <= channelcount ==>
      DeclaredIds(channelcount)[8 + 2 * (i - 1)] == ChannelName(i) &&
      DeclaredIds(channelcount)[9 + 2 * (i - 1)] == ChannelMute(i)
    ensures forall p :: 1 <= p <= PresetCount ==>
      DeclaredIds(channelcount)[7 + 2 * channelcount + p] == PresetName(p)
  {
    var ch := ChannelIds(channelcount);
    forall i | 1 <= i <= channelcount
      ensures DeclaredIds(channelcount)[8 + 2 * (i - 1)] == ChannelName(i)
      ensures DeclaredIds(channelcount)[9 + 2 * (i - 1)] == ChannelMute(i)
    {
      ChannelPair(channelcount, i);
    }
  }

  lemma ChannelPair(channelcount: nat, i: nat)
    requires 1 <= i <= channelcount
    ensures DeclaredIds(channelcount)[8 + 2 * (i - 1)] == ChannelName(i)
    ensures DeclaredIds(channelcount)[9 + 2 * (i - 1)] == ChannelMute(i)
  {
    var k := 2 * (i - 1);
    DeclaredChannelAt(channelcount, k);
    DeclaredChannelAt(channelcount, k + 1);
    ChannelIdOf(k, i);
  }

  lemma DeclaredChannelAt(channelcount: nat, k: nat)
    requires k < 2 * channelcount
    ensures DeclaredIds(channelcount)[8 + k] == ChannelId(k)
  {
    MiddleAt(FixedIds, ChannelIds(channelcount), PresetIds(PresetCount), k);
  }

  /** Channel `i`'s name sits at the even position `2 * (i - 1)` of the per-channel list,
      its mute right after. */
  lemma ChannelIdOf(k: nat, i: nat)
    requires 1 <= i && k == 2 * (i - 1)
    ensures ChannelId(k) == ChannelName(i)
    ensures ChannelId(k + 1) == ChannelMute(i)
  {
    PairOf(i - 1);
    assert k + 1 == 2 * (i - 1) + 1;
    assert Pair(k) + 1 == i && IsNameSlot(k);
    assert Pair(k + 1) + 1 == i && !IsNameSlot(k + 1);
  }

  lemma MiddleAt(a: seq<string>, b: seq<string>, c: seq<string>, k: nat)
    requires k < |b|
    ensures (a + b + c)[|a| + k] == b[k]
  {
  }

  // ---------------------------------------------------------------- no id declared twice

  predicate Distinct(ids: seq<string>) {
    forall i, j :: 0 <= i < j < |ids| ==> ids[i] != ids[j]
  }

  predicate Disjoint(a: seq<string>, b: seq<string>) {
    forall i, j :: 0 <= i < |a| && 0 <= j < |b| ==> a[i] != b[j]
  }

  lemma DistinctConcat(a: seq<string>, b: seq<string>)
    requires Distinct(a) && Distinct(b) && Disjoint(a, b)
    ensures Distinct(a + b)
  {
    forall i, j | 0 <= i < j < |a + b|
      ensures (a + b)[i] != (a + b)[j]
    {
      if j < |a| {
        assert (a + b)[i] == a[i] && (a + b)[j] == a[j];
      } else if i < |a| {
        assert (a + b)[i] == a[i] && (a + b)[j] == b[j - |a|];
      } else {
        assert (a + b)[i] == b[i - |a|] && (a + b)[j] == b[j - |a|];
      }
    }
  }

  lemma DisjointConcat(a: seq<string>, b: seq<string>, c: seq<string>)
    requires Disjoint(a, c) && Disjoint(b, c)
    ensures Disjoint(a + b, c)
  {
    forall i, j | 0 <= i < |a + b| && 0 <= j < |c|
      ensures (a + b)[i] != c[j]
    {
      if i < |a| {
        assert (a + b)[i] == a[i];
      } else {
        assert (a + b)[i] == b[i - |a|];
      }
    }
  }

  /** Two strings that share a prefix are equal only if what follows is. */
  lemma PrefixCancel(p: string, x: string, y: string)
    requires p + x == p + y
    ensures x == y
  {
    assert x == (p + x)[|p|..];
    assert y == (p + y)[|p|..];
  }

  lemma ChannelNameInjective(i: nat, j: nat)
    requires ChannelName(i) == ChannelName(j)
    ensures i == j
  {
    PrefixCancel("channel_name_", NatToString(i), NatToString(j));
    NatToStringInjective(i, j);
  }

  lemma ChannelMuteInjective(i: nat, j: nat)
    requires ChannelMute(i) == ChannelMute(j)
    ensures i == j
  {
    PrefixCancel("channel_mute_", NatToString(i), NatToString(j));
    NatToStringInjective(i, j);
  }

  lemma PresetNameInjective(i: nat, j: nat)
    requires PresetName(i) == PresetName(j)
    ensures i == j
  {
    PrefixCancel("preset_name_", NatToString(i), NatToString(j));
    NatToStringInjective(i, j);
  }

  /** The characters that tell the kinds of variable apart. */
  lemma Marks(i: nat)
    ensures |ChannelName(i)| > 13 && ChannelName(i)[0] == 'c' && ChannelName(i)[8] == 'n'
    ensures |ChannelMute(i)| > 13 && ChannelMute(i)[0] == 'c' && ChannelMute(i)[8] == 'm'
    ensures |PresetName(i)| > 7 && PresetName(i)[0] == 'p' && PresetName(i)[7] == 'n'
    ensures IsDigit(ChannelName(i)[13]) && IsDigit(ChannelMute(i)[13])
  {
    NatToStringDigits(i);
  }

  /** Different positions of the per-channel list hold different variables. */
  lemma ChannelIdInjective(k: nat, m: nat)
    requires ChannelId(k) == ChannelId(m)
    ensures k == m
  {
    Marks(Pair(k) + 1);
    Marks(Pair(m) + 1);
    SlotOf(k);
    SlotOf(m);
    if IsNameSlot(k) && IsNameSlot(m) {
      ChannelNameInjective(Pair(k) + 1, Pair(m) + 1);
    } else if !IsNameSlot(k) && !IsNameSlot(m) {
      ChannelMuteInjective(Pair(k) + 1, Pair(m) + 1);
    }
  }

  /** No fixed variable looks like a channel or a preset name variable. */
  lemma FixedMarks()
    ensures forall k :: 0 <= k < |FixedIds| ==> FixedIds[k] != [] && FixedIds[k][0] != 'c'
    ensures forall k :: 0 <= k < |FixedIds| ==> FixedIds[k][0] == 'p' ==> |FixedIds[k]| > 7 && FixedIds[k][7] != 'n'
  {
    forall k | 0 <= k < |FixedIds|
      ensures FixedIds[k] != [] && FixedIds[k][0] != 'c'
      ensures FixedIds[k][0] == 'p' ==> |FixedIds[k]| > 7 && FixedIds[k][7] != 'n'
    {
      assert k == 0 || k == 1 || k == 2 || k == 3 || k == 4 || k == 5 || k == 6 || k == 7;
    }
  }

  lemma FixedDistinct()
    ensures Distinct(FixedIds)
  {
  }

  lemma ChannelsDistinct(n: nat)
    ensures Distinct(ChannelIds(n))
  {
    forall i, j | 0 <= i < j < 2 * n
      ensures ChannelIds(n)[i] != ChannelIds(n)[j]
    {
      if ChannelId(i) == ChannelId(j) {
        ChannelIdInjective(i, j);
      }
    }
  }

  lemma PresetsDistinct(n: nat)
    ensures Distinct(PresetIds(n))
  {
    var pr := PresetIds(n);
    forall i, j | 0 <= i < j < n
      ensures pr[i] != pr[j]
    {
      if PresetName(i + 1) == PresetName(j + 1) {
        PresetNameInjective(i + 1, j + 1);
      }
    }
  }

  lemma FixedChannelsDisjoint(n: nat)
    ensures Disjoint(FixedIds, ChannelIds(n))
  {
    FixedMarks();
    forall k | 0 <= k < 2 * n
      ensures ChannelIds(n)[k][0] == 'c'
    {
      Marks(Pair(k) + 1);
    }
  }

  lemma FixedPresetsDisjoint(n: nat)
    ensures Disjoint(FixedIds, PresetIds(n))
  {
    FixedMarks();
    forall k | 0 <= k < n
      ensures |PresetIds(n)[k]| > 7 && PresetIds(n)[k][0] == 'p' && PresetIds(n)[k][7] == 'n'
    {
      Marks(k + 1);
    }
  }

  lemma ChannelsPresetsDisjoint(n: nat, m: nat)
    ensures Disjoint(ChannelIds(n), PresetIds(m))
  {
    forall k | 0 <= k < 2 * n
      ensures ChannelIds(n)[k][0] == 'c'
    {
      Marks(Pair(k) + 1);
    }
    forall k | 0 <= k < m
      ensures PresetIds(m)[k][0] == 'p'
    {
      Marks(k + 1);
    }
  }

  /** No variable is declared twice, whatever the channel count. */
  lemma DeclaredDistinct(channelcount: nat)
    ensures Distinct(DeclaredIds(channelcount))
  {
    var ch := ChannelIds(channelcount);
    var pr := PresetIds(PresetCount);
    FixedDistinct();
    ChannelsDistinct(channelcount);
    PresetsDistinct(PresetCount);
    FixedChannelsDisjoint(channelcount);
    FixedPresetsDisjoint(PresetCount);
    ChannelsPresetsDisjoint(channelcount, PresetCount);
    DistinctConcat(FixedIds, ch);
    DisjointConcat(FixedIds, ch, pr);
    DistinctConcat(FixedIds + ch, pr);
  }

  // ---------------------------------------------------------------- which channel ids exist

  /** A channel report's name and mute variables are declared exactly for the channels
      `1..channelcount`: the ones for channel 0, or for a channel past the count, are not. */
  lemma ChannelVariablesDeclared(channelcount: nat, i: nat)
    ensures ChannelName(i) in DeclaredIds(channelcount) <==> 1 <= i <= channelcount
    ensures ChannelMute(i) in DeclaredIds(channelcount) <==> 1 <= i <= channelcount
  {
    if 1 <= i <= channelcount {
      ChannelPair(channelcount, i);
    } else {
      NameUndeclared(channelcount, i, ChannelName(i));
      NameUndeclared(channelcount, i, ChannelMute(i));
    }
  }

  /** A channel variable of a channel outside `1..channelcount` is nowhere in the list. */
  lemma NameUndeclared(channelcount: nat, i: nat, x: string)
    requires x == ChannelName(i) || x == ChannelMute(i)
    requires !(1 <= i <= channelcount)
    ensures x !in DeclaredIds(channelcount)
  {
    Marks(i);
    FixedMarks();
    var ch := ChannelIds(channelcount);
    if x in ch {
      var k :| 0 <= k < |ch| && ch[k] == x;
      ChannelAt(k, i, x);
      SlotOf(k);
    }
  }

  /** Position `k` of the per-channel list holds a variable of channel `k / 2 + 1` only. */
  lemma ChannelAt(k: nat, i: nat, x: string)
    requires x == ChannelName(i) || x == ChannelMute(i)
    requires ChannelId(k) == x
    ensures i == Pair(k) + 1
  {
    var m := Pair(k) + 1;
    Marks(m);
    Marks(i);
    if IsNameSlot(k) && x == ChannelName(i) {
      ChannelNameInjective(m, i);
    } else if !IsNameSlot(k) && x == ChannelMute(i) {
      ChannelMuteInjective(m, i);
    }
  }

  // ---------------------------------------------------------------- the parser's keys are declared

  /** A channel variable named after something other than a non-negative channel number
      (`NaN`, or a negative number) is nowhere in the list. */
  lemma OddKeyUndeclared(channelcount: nat, x: string)
    requires |x| > 13 && x[0] == 'c' && !IsDigit(x[13])
    ensures x !in DeclaredIds(channelcount)
  {
    FixedMarks();
    var ch, ps := ChannelIds(channelcount), PresetIds(PresetCount);
    forall k | 0 <= k < |ch|
      ensures ch[k] != x
    {
      Marks(Pair(k) + 1);
    }
    forall k | 0 <= k < |ps|
      ensures ps[k] != x
    {
      Marks(k + 1);
    }
  }

  /** The key of a `CHAN_NAME` or `AUDIO_MUTE` report is declared exactly when the report
      carries a channel number in `1..channelcount`. */
  lemma ChannelKeyDeclared(channelcount: nat, f: string, channel: Option<int>)
    requires f == "CHAN_NAME" || f == "AUDIO_MUTE"
    ensures FieldKey(f, channel) in DeclaredIds(channelcount)
      <==> channel.Some? && 1 <= channel.value <= channelcount
  {
    var prefix := if f == "CHAN_NAME" then "channel_name_" else "channel_mute_";
    var text := NumberToString(channel);
    assert FieldKey(f, channel) == prefix + text;
    if channel.Some? && channel.value >= 0 {
      ChannelVariablesDeclared(channelcount, channel.value);
    } else {
      NotANumberText(channel);
      assert (prefix + text)[13] == text[0];
      OddKeyUndeclared(channelcount, prefix + text);
    }
  }

  /** `NaN` and a negative number print starting with something other than a digit. */
  lemma NotANumberText(channel: Option<int>)
    requires channel.None? || channel.value < 0
    ensures NumberToString(channel) != [] && !IsDigit(NumberToString(channel)[0])
  {
  }

  /** The other known fields are stored under fixed variables. */
  lemma FixedKeyDeclared(channelcount: nat, f: string, channel: Option<int>)
    requires KnownField(f) && f != "CHAN_NAME" && f != "AUDIO_MUTE"
    ensures FieldKey(f, channel) in FixedIds
    ensures FieldKey(f, channel) in DeclaredIds(channelcount)
  {
  }

  /** Every variable one received line writes is declared, as long as a channel report
      names a channel in `1..channelcount`. */
  lemma WritesDeclared(channelcount: nat, command: string)
    requires ParseReport(command).Some? ==>
      var r := ParseReport(command).value;
      (r.field == "CHAN_NAME" || r.field == "AUDIO_MUTE") ==>
        r.channel.Some? && 1 <= r.channel.value <= channelcount
    ensures forall w :: w in Writes(command) ==> w.key in DeclaredIds(channelcount)
  {
    var ws := Writes(command);
    assert "last_command_received" in DeclaredIds(channelcount);
    if |ws| == 2 {
      var r := ParseReport(command).value;
      if r.field == "CHAN_NAME" || r.field == "AUDIO_MUTE" {
        ChannelKeyDeclared(channelcount, r.field, r.channel);
      } else {
        FixedKeyDeclared(channelcount, r.field, r.channel);
      }
      assert ws == [ws[0], Write(FieldKey(r.field, r.channel), StoredValue(r.field, r.value))];
    } else {
      assert ws == [ws[0]];
    }
  }
}
