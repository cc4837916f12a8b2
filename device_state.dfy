/** The device-state store both engines write: a key → value map updated one variable at a time
    (`updateVariable`), and the record of those writes that the host's variable display sees. */
module DeviceState {
  import opened JsString

  /** A JavaScript value stored under a variable key. `NaN` is what `parseInt` returns on a
      non-number; `Undefined` is what the legacy engine stores for a missing token. */
  datatype Value = Str(s: string) | Num(n: int) | NaN | Undefined

  /** One `updateVariable(key, value)` call. */
  datatype Write = Write(key: string, value: Value)

  /** `state[key]` in JavaScript: a missing key reads as `undefined`. */
  function Get(state: map<string, Value>, key: string): Value {
    if key in state then state[key] else Undefined
  }

  /** A number as stored: `parseInt`'s NaN becomes the NaN value. */
  function FromNumber(r: Option<int>): Value {
    match r
    case None => NaN
    case Some(n) => Num(n)
  }

  /** The store after the writes `ws`, applied in order. */
  function Apply(state: map<string, Value>, ws: seq<Write>): map<string, Value> {
    if ws == [] then state
    else Apply(state, ws[..|ws| - 1])[ws[|ws| - 1].key := ws[|ws| - 1].value]
  }

  /** One write sets its key. */
  lemma ApplyOne(state: map<string, Value>, w: Write)
    ensures Apply(state, [w]) == state[w.key := w.value]
  {
    assert [w][..0] == [];
  }

  /** Applying two batches of writes is applying their concatenation. */
  lemma {:induction false} ApplyAppend(state: map<string, Value>, a: seq<Write>, b: seq<Write>)
    ensures Apply(state, a + b) == Apply(Apply(state, a), b)
  {
    if b == [] {
      assert a + b == a;
    } else {
      var b' := b[..|b| - 1];
      assert (a + b)[..|a + b| - 1] == a + b';
      ApplyAppend(state, a, b');
    }
  }

  /** A key no write touches keeps its value (or its absence). */
  lemma {:induction false} ApplyUntouched(state: map<string, Value>, ws: seq<Write>, key: string)
    requires forall k :: 0 <= k < |ws| ==> ws[k].key != key
    ensures Get(Apply(state, ws), key) == Get(state, key)
  {
    if ws != [] {
      ApplyUntouched(state, ws[..|ws| - 1], key);
    }
  }

  /** The key of the last write holds that write's value. */
  lemma ApplyLast(state: map<string, Value>, ws: seq<Write>)
    requires ws != []
    ensures Get(Apply(state, ws), ws[|ws| - 1].key) == ws[|ws| - 1].value
  {
  }
}
