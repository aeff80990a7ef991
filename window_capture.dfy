/** Retargeting the capture input (src/obs/updateWindowCapture.ts): find the settings field
    that selects the display, coerce the desired value to that field's current type, and
    write back that one field as an overlay. */
module WindowCapture {
  import opened Base
  import opened Text
  import opened Obs

  /** `displayValue: string | number` */
  datatype DisplayValue = StrValue(s: string) | NumValue(n: int)

  /** `typeof next === 'number' ? next : Number(next)`, None standing for NaN. */
  function NumberOf(next: DisplayValue): Option<int> {
    match next
    case NumValue(n) => Some(n)
    case StrValue(s) => JsNumber(s)
  }

  /** `typeof next === 'string' ? next : String(next)` */
  function StringOf(next: DisplayValue): string {
    match next
    case StrValue(s) => s
    case NumValue(n) => IntToString(n)
  }

  /** `coerceValue`: a numeric field gets a number (the desired one, else the fallback index,
      else 0); any other field gets the desired value as a string. */
  function CoerceValue(current: Value, next: DisplayValue, fallbackIndex: Option<int>): (r: Value)
    ensures r.Num? <==> IsNumber(current)
    ensures r.Str? <==> !IsNumber(current)
    ensures IsNumber(current) && NumberOf(next).None? ==> r == Num(fallbackIndex.GetOr(0))
    ensures !IsNumber(current) && next.StrValue? ==> r == Str(next.s)
  {
    if IsNumber(current) then
      match NumberOf(next)
      case Some(n) => Num(n)
      case None => Num(fallbackIndex.GetOr(0))
    else Str(StringOf(next))
  }

  /** The number a value stands for when read back with `Number()`. */
  function NumberRead(v: Value): Option<int> {
    match v
    case Num(n) => Some(n)
    case Str(s) => JsNumber(s)
    case _ => None
  }

  /** Whatever the field's type, a desired value that denotes a number is written so that it
      still denotes that number. */
  lemma CoerceKeepsNumber(current: Value, next: DisplayValue, fallbackIndex: Option<int>)
    requires NumberOf(next).Some?
    ensures NumberRead(CoerceValue(current, next, fallbackIndex)) == NumberOf(next)
  {
    if next.NumValue? && !IsNumber(current) {
      NumberOfIntToString(next.n);
    }
  }

  /** A number written into a string field is its decimal form, which reads back as that number. */
  lemma CoerceNumberIntoString(current: Value, n: int, fallbackIndex: Option<int>)
    requires !IsNumber(current)
    ensures CoerceValue(current, NumValue(n), fallbackIndex) == Str(IntToString(n))
    ensures JsNumber(IntToString(n)) == Some(n)
  {
    NumberOfIntToString(n);
  }

  /** A numeric field asked to take an output name gets the fallback index. */
  lemma CoerceNameIntoNumber()
    ensures CoerceValue(Num(2), StrValue("DP-1"), Some(3)) == Num(3)
    ensures CoerceValue(Num(2), StrValue("DP-1"), None) == Num(0)
  {
    NotANumber("DP-1");
  }

  /** A string field asked to take the index 1 gets "1". */
  lemma CoerceIndexIntoString()
    ensures CoerceValue(Str("HDMI-1"), NumValue(1), Some(1)) == Str("1")
  {
    assert NatToDigits(1) == [DigitChar(1)];
  }

  /** The key heuristic: its lower-cased form mentions a display, a screen or a monitor. */
  predicate IsDisplayKey(key: string) {
    var k := Lower(key);
    Contains(k, "display") || Contains(k, "screen") || Contains(k, "monitor")
  }

  /** The key test ignores letter case: keys that lower-case alike are both display keys or neither. */
  lemma DisplayKeyIgnoresCase(a: string, b: string)
    requires |a| == |b| && forall i :: 0 <= i < |a| ==> LowerChar(a[i]) == LowerChar(b[i])
    ensures IsDisplayKey(a) == IsDisplayKey(b)
  {
    assert Lower(a) == Lower(b);
  }

  /** `Object.keys(inputSettings).find(...)`: the first display-like key in enumeration order. */
  function FindDisplayKey(s: Settings): (r: Option<string>)
    ensures r.None? <==> forall i :: 0 <= i < |s| ==> !IsDisplayKey(s[i].0)
    ensures r.Some? ==> exists i :: (0 <= i < |s| && s[i].0 == r.value && IsDisplayKey(r.value)
      && forall j :: 0 <= j < i ==> !IsDisplayKey(s[j].0))
  {
    var keys := Keys(s);
    match FindFirst(keys, IsDisplayKey)
    case Some(i) => Some(keys[i])
    case None => None
  }

  /** The field found is read from the entry where it was found. */
  lemma DisplayKeyValue(s: Settings)
    requires FindDisplayKey(s).Some?
    ensures FindDisplayKey(s).value in Keys(s)
    ensures exists i :: 0 <= i < |s| && s[i] == (FindDisplayKey(s).value, ValueAt(s, FindDisplayKey(s).value))
  {
    var key := FindDisplayKey(s).value;
    var i :| 0 <= i < |s| && s[i].0 == key && IsDisplayKey(key) && forall j :: 0 <= j < i ==> !IsDisplayKey(s[j].0);
    assert forall j :: 0 <= j < i ==> s[j].0 != s[i].0;
    LookupFirst(s, i);
    assert Keys(s)[i] == key;
  }

  /** Writing the display field leaves the same field to be found next time. */
  lemma DisplayKeyStable(s: Settings, v: Value)
    requires FindDisplayKey(s).Some?
    ensures FindDisplayKey(Overlay(s, FindDisplayKey(s).value, v)) == FindDisplayKey(s)
  {
    var key := FindDisplayKey(s).value;
    DisplayKeyValue(s);
    OverlayKeys(s, key, v);
  }

  /** A display-like key is found past keys that are not, whatever its letter case; keys too
      short to mention a display are never chosen. */
  lemma DisplayKeyExamples()
    ensures FindDisplayKey([("fps", Num(60)), ("monitor_id", Str("DISPLAY1"))]) == Some("monitor_id")
    ensures FindDisplayKey([("url", Str("")), ("ScreenId", Num(0))]) == Some("ScreenId")
    ensures FindDisplayKey([("url", Str("")), ("fps", Num(30))]) == None
  {
    assert Lower("monitor_id")[..7] == "monitor";
    assert Lower("ScreenId")[..6] == "screen";
    ShortKeyIsNot("url");
    ShortKeyIsNot("fps");
  }

  lemma ShortKeyIsNot(key: string)
    requires |key| < 6
    ensures !IsDisplayKey(key)
  {
    ContainsFits(Lower(key), "display");
    ContainsFits(Lower(key), "screen");
    ContainsFits(Lower(key), "monitor");
  }

  /** Why an update failed: a request was rejected or lost, or no display field exists. */
  datatype Failure = RequestFailed(req: Request) | NoDisplayField(inputName: string)

  datatype Outcome = Ok | Err(failure: Failure)

  /** `updateWindowCapture` against the OBS state `st`; `getDelivered` and `setDelivered`
      say whether each request gets through. */
  function Update(st: ObsState, inputName: string, displayValue: DisplayValue, displayIndex: Option<int>,
                  getDelivered: bool, setDelivered: bool): (ObsState, Outcome)
  {
    var (st1, fetched) := ServeRead(st, inputName, getDelivered);
    if fetched.None? then (st1, Err(RequestFailed(GetInputSettings(inputName))))
    else
      var settings := fetched.value;
      match FindDisplayKey(settings)
      case None => (st1, Err(NoDisplayField(inputName)))
      case Some(key) =>
        var next := CoerceValue(ValueAt(settings, key), displayValue, displayIndex);
        var (st2, written) := ServeWrite(st1, inputName, key, next, setDelivered);
        (st2, if written then Ok else Err(RequestFailed(SetInputSettings(inputName, key, next))))
  }

  /** The update succeeds exactly when both requests get through, the input exists and it has a
      display field. */
  lemma UpdateSucceeds(st: ObsState, inputName: string, dv: DisplayValue, di: Option<int>, g: bool, w: bool)
    ensures Update(st, inputName, dv, di, g, w).1 == Ok <==>
      g && w && inputName in st.inputs && FindDisplayKey(st.inputs[inputName]).Some?
  {
  }

  /** Without a display field the update fails before writing: the only request issued is the
      read, and no setting changes. */
  lemma UpdateWithoutField(st: ObsState, inputName: string, dv: DisplayValue, di: Option<int>, g: bool, w: bool)
    requires g && inputName in st.inputs && FindDisplayKey(st.inputs[inputName]).None?
    ensures Update(st, inputName, dv, di, g, w) ==
      (ObsState(st.inputs, st.requests + [GetInputSettings(inputName)]), Err(NoDisplayField(inputName)))
  {
  }

  /** On success the display field holds the coerced value, every other field of the input and
      every other input is unchanged, and the requests were the read and then one one-key write. */
  lemma UpdateWritesOneField(st: ObsState, inputName: string, dv: DisplayValue, di: Option<int>, g: bool, w: bool)
    requires g && w && inputName in st.inputs && FindDisplayKey(st.inputs[inputName]).Some?
    ensures Update(st, inputName, dv, di, g, w).1 == Ok
    ensures var settings := st.inputs[inputName];
      var key := FindDisplayKey(settings).value;
      var next := CoerceValue(ValueAt(settings, key), dv, di);
      var after := Update(st, inputName, dv, di, g, w).0;
      && after.requests == st.requests + [GetInputSettings(inputName), SetInputSettings(inputName, key, next)]
      && after.inputs.Keys == st.inputs.Keys
      && (forall n :: n in st.inputs && n != inputName ==> after.inputs[n] == st.inputs[n])
      && Lookup(after.inputs[inputName], key) == Some(next)
      && (forall k :: k != key ==> Lookup(after.inputs[inputName], k) == Lookup(settings, k))
      && Keys(after.inputs[inputName]) == Keys(settings)
  {
    var settings := st.inputs[inputName];
    var key := FindDisplayKey(settings).value;
    var next := CoerceValue(ValueAt(settings, key), dv, di);
    var st1 := ServeRead(st, inputName, g).0;
    WriteChangesOneField(st1, inputName, key, next, w);
    DisplayKeyValue(settings);
  }

  /** A failed update changes no setting anywhere. */
  lemma UpdateUnchangedOnFailure(st: ObsState, inputName: string, dv: DisplayValue, di: Option<int>, g: bool, w: bool)
    requires Update(st, inputName, dv, di, g, w).1 != Ok
    ensures Update(st, inputName, dv, di, g, w).0.inputs == st.inputs
  {
  }

  /** Every update first reads the input's settings, and writes at most once after that. */
  lemma UpdateRequests(st: ObsState, inputName: string, dv: DisplayValue, di: Option<int>, g: bool, w: bool)
    ensures var after := Update(st, inputName, dv, di, g, w).0;
      var added := after.requests[|st.requests|..];
      && st.requests < after.requests
      && added[0] == GetInputSettings(inputName)
      && |added| <= 2
      && (forall i :: 0 < i < |added| ==> added[i].SetInputSettings?)
  {
    var st1 := ServeRead(st, inputName, g).0;
    var after := Update(st, inputName, dv, di, g, w).0;
    if after.requests == st1.requests {
      assert after.requests[|st.requests|..] == [GetInputSettings(inputName)];
    } else {
      var settings := st.inputs[inputName];
      var key := FindDisplayKey(settings).value;
      var next := CoerceValue(ValueAt(settings, key), dv, di);
      assert after.requests[|st.requests|..] == [GetInputSettings(inputName), SetInputSettings(inputName, key, next)];
    }
  }

  /** `updateWindowCapture`: read the settings, locate the display field, coerce, and write
      back that one field. */
  method UpdateWindowCapture(obs: ObsConnection, inputName: string, displayValue: DisplayValue,
                             displayIndex: Option<int>, getDelivered: bool, setDelivered: bool)
    returns (outcome: Outcome)
    modifies obs
    ensures (obs.State(), outcome) == Update(old(obs.State()), inputName, displayValue, displayIndex, getDelivered, setDelivered)
  {
    var inputSettings := obs.GetInputSettings(inputName, getDelivered);
    if inputSettings.None? {
      return Err(RequestFailed(GetInputSettings(inputName)));
    }
    var displayKey := FindDisplayKey(inputSettings.value);
    if displayKey.None? {
      return Err(NoDisplayField(inputName));
    }
    var currentValue := ValueAt(inputSettings.value, displayKey.value);
    var nextValue := CoerceValue(currentValue, displayValue, displayIndex);
    var written := obs.SetInputSettings(inputName, displayKey.value, nextValue, setDelivered);
    outcome := if written then Ok else Err(RequestFailed(SetInputSettings(inputName, displayKey.value, nextValue)));
  }
}
