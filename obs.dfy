/** What the program sees of OBS through its websocket client: each input's settings, as an
    ordered JavaScript object, and the requests the client has issued. A request may be lost
    on the way (the `delivered` flag); a delivered request is answered as OBS answers it. */
module Obs {
  import opened Base

  /** A setting's value as JavaScript sees it. `NaN` is a number to `typeof`; `Other` stands
      for booleans, objects, `null` and `undefined`. */
  datatype Value = Num(n: int) | NaN | Str(s: string) | Other

  /** `typeof v === 'number'` */
  predicate IsNumber(v: Value) {
    v.Num? || v.NaN?
  }

  /** An input's settings object: its entries in key-enumeration order. */
  type Settings = seq<(string, Value)>

  function Keys(s: Settings): (ks: seq<string>)
    ensures |ks| == |s| && forall i :: 0 <= i < |s| ==> ks[i] == s[i].0
  {
    if s == [] then [] else [s[0].0] + Keys(s[1..])
  }

  /** No key occurs twice, as in any JavaScript object. */
  predicate DistinctKeys(s: Settings) {
    forall i, j :: 0 <= i < j < |s| ==> s[i].0 != s[j].0
  }

  /** `settings[key]`: the value stored under `key`, or None for `undefined`. */
  function Lookup(s: Settings, key: string): (r: Option<Value>)
    ensures r.None? <==> key !in Keys(s)
    ensures r.Some? ==> exists i :: 0 <= i < |s| && s[i] == (key, r.value)
  {
    if s == [] then None
    else if s[0].0 == key then Some(s[0].1)
    else Lookup(s[1..], key)
  }

  /** The value JavaScript reads for `settings[key]`: `undefined` is not a number. */
  function ValueAt(s: Settings, key: string): Value {
    Lookup(s, key).GetOr(Other)
  }

  /** The entry at position i is the first one with its key, so `settings[key]` reads it. */
  lemma {:induction false} LookupFirst(s: Settings, i: nat)
    requires i < |s| && forall j :: 0 <= j < i ==> s[j].0 != s[i].0
    ensures Lookup(s, s[i].0) == Some(s[i].1)
  {
    if i > 0 {
      LookupFirst(s[1..], i - 1);
    }
  }

  /** `SetInputSettings` with `overlay: true` and a one-key patch: the entry with that key
      takes the new value in place, or the key is added at the end when absent. */
  function Overlay(s: Settings, key: string, v: Value): Settings {
    if s == [] then [(key, v)]
    else if s[0].0 == key then [(key, v)] + s[1..]
    else [s[0]] + Overlay(s[1..], key, v)
  }

  /** After the merge, the patched key holds the new value... */
  lemma {:induction false} OverlayHit(s: Settings, key: string, v: Value)
    ensures Lookup(Overlay(s, key, v), key) == Some(v)
  {
    if s != [] && s[0].0 != key {
      OverlayHit(s[1..], key, v);
    }
  }

  /** ...and every other key reads as before. */
  lemma {:induction false} OverlayMiss(s: Settings, key: string, v: Value, other: string)
    requires other != key
    ensures Lookup(Overlay(s, key, v), other) == Lookup(s, other)
  {
    if s != [] && s[0].0 != key {
      OverlayMiss(s[1..], key, v, other);
    }
  }

  /** The merge keeps the existing keys in their order, adding the patched key only when absent. */
  lemma {:induction false} OverlayKeys(s: Settings, key: string, v: Value)
    ensures Keys(Overlay(s, key, v)) == if key in Keys(s) then Keys(s) else Keys(s) + [key]
  {
    if s != [] && s[0].0 != key {
      OverlayKeys(s[1..], key, v);
      assert Keys(s) == [s[0].0] + Keys(s[1..]);
    }
  }

  /** The merge keeps the settings a well-formed object: no key occurs twice. */
  lemma OverlayDistinct(s: Settings, key: string, v: Value)
    requires DistinctKeys(s)
    ensures DistinctKeys(Overlay(s, key, v))
  {
    var o := Overlay(s, key, v);
    OverlayKeys(s, key, v);
    forall i, j | 0 <= i < j < |o| ensures o[i].0 != o[j].0 {
      assert o[i].0 == Keys(o)[i] && o[j].0 == Keys(o)[j];
      if key !in Keys(s) && j == |s| {
        assert Keys(s)[i] == s[i].0;
      }
    }
  }

  /** A request the program sends; `Transition` stands for the whole studio-mode transition
      sequence. */
  datatype Request =
    | GetInputSettings(inputName: string)
    | SetInputSettings(inputName: string, key: string, value: Value)
    | Transition

  datatype ObsState = ObsState(inputs: map<string, Settings>, requests: seq<Request>)

  function Issue(st: ObsState, req: Request): ObsState {
    st.(requests := st.requests + [req])
  }

  /** `GetInputSettings`: the input's settings, or None when the request is lost or OBS knows
      no input of that name. */
  function ServeRead(st: ObsState, inputName: string, delivered: bool): (ObsState, Option<Settings>) {
    (Issue(st, GetInputSettings(inputName)),
     if delivered && inputName in st.inputs then Some(st.inputs[inputName]) else None)
  }

  /** `SetInputSettings` with `overlay: true`: OBS merges the one-key patch into the input's
      settings; false when the request is lost or the input is unknown. */
  function ServeWrite(st: ObsState, inputName: string, key: string, value: Value, delivered: bool): (ObsState, bool) {
    var issued := Issue(st, SetInputSettings(inputName, key, value));
    if delivered && inputName in st.inputs then
      (issued.(inputs := st.inputs[inputName := Overlay(st.inputs[inputName], key, value)]), true)
    else (issued, false)
  }

  /** The studio-mode transition: it changes no input setting. */
  function ServeTransition(st: ObsState, delivered: bool): (ObsState, bool) {
    (Issue(st, Transition), delivered)
  }

  /** An accepted write changes exactly the patched field of the one input: every other input and
      every other field reads as before, and no field disappears. A rejected write changes nothing. */
  lemma WriteChangesOneField(st: ObsState, inputName: string, key: string, value: Value, delivered: bool)
    ensures var (after, ok) := ServeWrite(st, inputName, key, value, delivered);
      && after.requests == st.requests + [SetInputSettings(inputName, key, value)]
      && (!ok ==> after.inputs == st.inputs)
      && (ok <==> delivered && inputName in st.inputs)
      && (ok ==>
        && after.inputs.Keys == st.inputs.Keys
        && (forall n :: n in st.inputs && n != inputName ==> after.inputs[n] == st.inputs[n])
        && Lookup(after.inputs[inputName], key) == Some(value)
        && (forall k :: k != key ==> Lookup(after.inputs[inputName], k) == Lookup(st.inputs[inputName], k))
        && Keys(after.inputs[inputName]) ==
             if key in Keys(st.inputs[inputName]) then Keys(st.inputs[inputName]) else Keys(st.inputs[inputName]) + [key])
  {
    if delivered && inputName in st.inputs {
      var s := st.inputs[inputName];
      forall k | k != key ensures Lookup(Overlay(s, key, value), k) == Lookup(s, k) {
        OverlayMiss(s, key, value, k);
      }
      OverlayHit(s, key, value);
      OverlayKeys(s, key, value);
    }
  }

  /** The client handle together with the OBS-side state it acts on. */
  class ObsConnection {
    var inputs: map<string, Settings>
    var requests: seq<Request>

    function State(): ObsState
      reads this
    {
      ObsState(inputs, requests)
    }

    constructor (initial: map<string, Settings>)
      ensures State() == ObsState(initial, [])
    {
      inputs := initial;
      requests := [];
    }

    /** `obs.call('GetInputSettings', {inputName})` */
    method GetInputSettings(inputName: string, delivered: bool) returns (settings: Option<Settings>)
      modifies this
      ensures (State(), settings) == ServeRead(old(State()), inputName, delivered)
    {
      requests := requests + [Request.GetInputSettings(inputName)];
      settings := if delivered && inputName in inputs then Some(inputs[inputName]) else None;
    }

    /** `obs.call('SetInputSettings', {inputName, inputSettings: {[key]: value}, overlay: true})` */
    method SetInputSettings(inputName: string, key: string, value: Value, delivered: bool) returns (ok: bool)
      modifies this
      ensures (State(), ok) == ServeWrite(old(State()), inputName, key, value, delivered)
    {
      requests := requests + [Request.SetInputSettings(inputName, key, value)];
      ok := delivered && inputName in inputs;
      if ok {
        inputs := inputs[inputName := Overlay(inputs[inputName], key, value)];
      }
    }

    /** The transition's requests, as one step. */
    method RunTransition(delivered: bool) returns (ok: bool)
      modifies this
      ensures (State(), ok) == ServeTransition(old(State()), delivered)
    {
      requests := requests + [Transition];
      ok := delivered;
    }
  }
}
