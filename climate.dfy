/** The air-conditioner entity: the two mode tables, the state-update step
    that copies a vendor `settings` record into the entity, the read-outs
    derived from the appliance's per-mode capability table, and the command
    payloads sent back to the cloud. */
module Climate {
  import opened Types
  import opened Dict
  import Decimal

  /** The host's HVAC modes that the vendor supports. */
  datatype HvacMode = Auto | FanOnly | Cool | Dry | Heat | Off

  const ModeHaToRemo: map<HvacMode, string> := map[
    Auto := "auto",
    FanOnly := "blow",
    Cool := "cool",
    Dry := "dry",
    Heat := "warm",
    Off := "power-off"
  ]

  const ModeRemoToHa: map<string, HvacMode> := map[
    "auto" := Auto,
    "blow" := FanOnly,
    "cool" := Cool,
    "dry" := Dry,
    "warm" := Heat,
    "power-off" := Off
  ]

  /** The vendor string for "off", as the `button` of a settings record. */
  const PowerOff: string := "power-off"

  /** The target temperature requested when a mode is switched on without a
      remembered target. */
  const DefaultTemp: map<HvacMode, int> := map[Cool := 20, Heat := 20]

  /** One mode's entry in the appliance's capability table: the selectable
      temperatures (as text, possibly with empty entries), fan volumes and
      air directions. */
  datatype ModeRange = ModeRange(temp: seq<string>, vol: seq<string>, dir: seq<string>)

  /** The vendor's current settings of an air conditioner. */
  datatype AcSettings = AcSettings(temp: string, mode: string, vol: string, dir: string, button: string)

  /** A vendor appliance of type AC: its id, its capability table keyed by
      vendor mode, and its current settings. */
  datatype Appliance = Appliance(id: string, modes: seq<(string, ModeRange)>, settings: AcSettings)

  lemma ModeTablesInverse()
    ensures forall m: HvacMode :: m in ModeHaToRemo && ModeHaToRemo[m] in ModeRemoToHa
    ensures forall m: HvacMode :: ModeRemoToHa[ModeHaToRemo[m]] == m
    ensures forall v :: v in ModeRemoToHa ==> v in ModeHaToRemo.Values && ModeHaToRemo[ModeRemoToHa[v]] == v
    ensures ModeRemoToHa.Keys == ModeHaToRemo.Values
  {
    forall m: HvacMode
      ensures m in ModeHaToRemo && ModeHaToRemo[m] in ModeRemoToHa && ModeRemoToHa[ModeHaToRemo[m]] == m
    {
      match m
      case Auto =>
      case FanOnly =>
      case Cool =>
      case Dry =>
      case Heat =>
      case Off =>
    }
    assert ModeRemoToHa.Keys == {"auto", "blow", "cool", "dry", "warm", "power-off"};
    forall v | v in ModeRemoToHa
      ensures v in ModeHaToRemo.Values && ModeHaToRemo[ModeRemoToHa[v]] == v
    {
      var m := ModeRemoToHa[v];
      assert ModeHaToRemo[m] == v by {
        assert v in {"auto", "blow", "cool", "dry", "warm", "power-off"};
      }
    }
  }

  /** `filter(None, texts)`: the non-empty strings, in order. */
  function NonEmpty(texts: seq<string>): (r: seq<string>)
    ensures |r| <= |texts|
    ensures forall s :: s in r <==> s in texts && s != ""
  {
    if texts == [] then []
    else (if texts[0] == "" then [] else [texts[0]]) + NonEmpty(texts[1..])
  }

  /** Filtering keeps order and repeats: it distributes over concatenation,
      so the result is the non-empty texts in their input order. */
  lemma {:induction false} NonEmptyAppend(a: seq<string>, b: seq<string>)
    ensures NonEmpty(a + b) == NonEmpty(a) + NonEmpty(b)
  {
    if a == [] {
      assert a + b == b;
    } else {
      assert (a + b)[1..] == a[1..] + b;
      NonEmptyAppend(a[1..], b);
    }
  }

  /** A single text is kept exactly when it is non-empty. */
  lemma NonEmptySingle(text: string)
    ensures NonEmpty([text]) == if text == "" then [] else [text]
  {
    assert [text][1..] == [];
  }

  /** `list(map(float, texts))`: every text parsed, or the `ValueError` of the
      first one that is not a number. */
  function ParseAll(texts: seq<string>): (r: Result<seq<real>>)
    ensures r.Ok? <==> forall i :: 0 <= i < |texts| ==> Decimal.Parse(texts[i]).Some?
    ensures r.Ok? ==> |r.value| == |texts|
    ensures r.Ok? ==> forall i :: 0 <= i < |texts| ==> Decimal.Parse(texts[i]) == Some(r.value[i])
    ensures r.Err? ==> r.error.ValueError? && r.error.text in texts && Decimal.Parse(r.error.text).None?
    ensures r.Err? ==>
      exists i ::
        && 0 <= i < |texts| && r.error.text == texts[i]
        && forall j :: 0 <= j < i ==> Decimal.Parse(texts[j]).Some?
  {
    if texts == [] then Ok([])
    else match Decimal.Parse(texts[0])
      case None => Err(ValueError(texts[0]))
      case Some(v) =>
        match ParseAll(texts[1..])
        case Err(e) =>
          FirstBadTextShift(texts, e.text);
          Err(e)
        case Ok(rest) => Ok([v] + rest)
  }

  function Min(s: seq<real>): (m: real)
    requires |s| > 0
    ensures m in s && forall x :: x in s ==> m <= x
  {
    if |s| == 1 then s[0]
    else
      var m := Min(s[1..]);
      assert forall x :: x in s ==> x == s[0] || x in s[1..];
      if s[0] <= m then s[0] else m
  }

  function Max(s: seq<real>): (m: real)
    requires |s| > 0
    ensures m in s && forall x :: x in s ==> x <= m
  {
    if |s| == 1 then s[0]
    else
      var m := Max(s[1..]);
      assert forall x :: x in s ==> x == s[0] || x in s[1..];
      if s[0] >= m then s[0] else m
  }

  /** A text that is the first non-number of `texts[1..]` is the first of `texts` when `texts[0]` is a number. */
  lemma FirstBadTextShift(texts: seq<string>, t: string)
    requires texts != [] && Decimal.Parse(texts[0]).Some?
    requires exists k ::
      && 0 <= k < |texts[1..]| && t == texts[1..][k]
      && forall j :: 0 <= j < k ==> Decimal.Parse(texts[1..][j]).Some?
    ensures exists i ::
      && 0 <= i < |texts| && t == texts[i]
      && forall j :: 0 <= j < i ==> Decimal.Parse(texts[j]).Some?
  {
    var k :|
      && 0 <= k < |texts[1..]| && t == texts[1..][k]
      && forall j :: 0 <= j < k ==> Decimal.Parse(texts[1..][j]).Some?;
    assert forall j :: 1 <= j < k + 1 ==> texts[j] == texts[1..][j - 1];
  }

  /** The host modes of the vendor modes listed, or the `KeyError` of the first
      one the table does not know. */
  function ToHaModes(remoModes: seq<string>): (r: Result<seq<HvacMode>>)
    ensures r.Ok? <==> forall i :: 0 <= i < |remoModes| ==> remoModes[i] in ModeRemoToHa
    ensures r.Ok? ==> |r.value| == |remoModes|
    ensures r.Ok? ==> forall i :: 0 <= i < |remoModes| ==> r.value[i] == ModeRemoToHa[remoModes[i]]
    ensures r.Err? ==> r.error.KeyError? && r.error.key in remoModes && r.error.key !in ModeRemoToHa
    ensures r.Err? ==>
      exists i ::
        && 0 <= i < |remoModes| && r.error.key == remoModes[i]
        && forall j :: 0 <= j < i ==> remoModes[j] in ModeRemoToHa
  {
    if remoModes == [] then Ok([])
    else if remoModes[0] !in ModeRemoToHa then Err(KeyError(remoModes[0]))
    else match ToHaModes(remoModes[1..])
      case Err(e) =>
        assert exists i ::
            && 1 <= i < |remoModes| && e.key == remoModes[i]
            && forall j :: 0 <= j < i ==> remoModes[j] in ModeRemoToHa by {
          var k :|
            && 0 <= k < |remoModes[1..]| && e.key == remoModes[1..][k]
            && forall j :: 0 <= j < k ==> remoModes[1..][j] in ModeRemoToHa;
          assert forall j :: 1 <= j < k + 1 ==> remoModes[j] == remoModes[1..][j - 1];
        }
        Err(e)
      case Ok(rest) => Ok([ModeRemoToHa[remoModes[0]]] + rest)
  }

  /** The target-temperature history: every vendor mode has an entry, and a
      recorded temperature is never empty text. */
  ghost predicate HistoryValid(history: map<string, Option<string>>)
  {
    && (forall v :: v in ModeRemoToHa ==> v in history)
    && (forall v :: v in history ==> history[v] != Some(""))
  }

  /** Remembering a non-empty temperature for a mode keeps the history valid. */
  lemma HistoryValidAfterStore(history: map<string, Option<string>>, mode: string, temp: string)
    requires HistoryValid(history) && temp != ""
    ensures HistoryValid(history[mode := Some(temp)])
  {
  }

  /** The history `__init__` starts from: no temperature remembered for any
      vendor mode. */
  const NoHistory: map<string, Option<string>> := map v | v in ModeRemoToHa :: None

  /** `float(settings["temp"])` raises. */
  predicate TempRejected(settings: AcSettings)
  {
    settings.temp != "" && Decimal.Parse(settings.temp).None?
  }

  /** The mode lookup raises: the AC is on in a mode the table does not know. */
  predicate ModeRejected(settings: AcSettings)
  {
    settings.button != PowerOff && settings.mode !in ModeRemoToHa
  }

  /** The HVAC mode `_update` derives from a settings record: OFF when the
      button says so, otherwise the host mode of the vendor mode; `None` where
      the lookup raises. */
  function SettingsHvacMode(settings: AcSettings): (m: Option<HvacMode>)
    ensures m.None? <==> ModeRejected(settings)
    ensures m.Some? ==> (m.value == Off <==> settings.button == PowerOff || settings.mode == PowerOff)
    ensures m.Some? && settings.button != PowerOff ==>
      m.value in ModeHaToRemo && ModeHaToRemo[m.value] == settings.mode
  {
    ModeTablesInverse();
    if settings.button == ModeHaToRemo[Off] then Some(Off)
    else if settings.mode in ModeRemoToHa then Some(ModeRemoToHa[settings.mode])
    else None
  }

  /** The exception `_update` raises for these settings, if any: `float` of a
      non-numeric `temp`, then the mode lookup when the AC is not off, then the
      device's missing temperature event. */
  function UpdateFailure(settings: AcSettings, device: Option<Device>): Option<Error>
  {
    if TempRejected(settings) then Some(ValueError(settings.temp))
    else if ModeRejected(settings) then Some(KeyError(settings.mode))
    else if device.Some? && Lookup(device.value.newestEvents, "te").None? then Some(KeyError("te"))
    else None
  }

  /** Empty text reads as "no value". */
  function OrNone(s: string): Option<string>
  {
    if s == "" then None else Some(s)
  }

  class NatureRemoAC {
    const applianceId: string
    const deviceId: string
    const modes: seq<(string, ModeRange)>

    var hvacMode: Option<HvacMode>
    var currentTemperature: Option<real>
    var targetTemperature: Option<real>
    var remoMode: Option<string>
    var fanMode: Option<string>
    var swingMode: Option<string>
    var lastTargetTemperature: map<string, Option<string>>

    ghost predicate Valid()
      reads this
    {
      HistoryValid(lastTargetTemperature) && remoMode.Some?
    }

    /** The fields as `__init__` sets them before its call to `_update`. */
    constructor Init(device: Device, appliance: Appliance)
      ensures applianceId == appliance.id && deviceId == device.id && modes == appliance.modes
      ensures hvacMode == None && currentTemperature == None && targetTemperature == None
      ensures remoMode == None && fanMode == None && swingMode == None
      ensures lastTargetTemperature == NoHistory
      ensures lastTargetTemperature.Keys == ModeRemoToHa.Keys
      ensures forall v :: v in lastTargetTemperature ==> lastTargetTemperature[v] == None
      ensures HistoryValid(lastTargetTemperature)
    {
      applianceId := appliance.id;
      deviceId := device.id;
      modes := appliance.modes;
      hvacMode, currentTemperature, targetTemperature := None, None, None;
      remoMode, fanMode, swingMode := None, None, None;
      lastTargetTemperature := NoHistory;
    }

    /** `__init__`: the entity for an AC appliance, or the exception its
        initial `_update` raises. */
    static method Create(device: Device, appliance: Appliance) returns (r: Result<NatureRemoAC>)
      ensures r.Err? <==> UpdateFailure(appliance.settings, Some(device)).Some?
      ensures r.Err? ==> Some(r.error) == UpdateFailure(appliance.settings, Some(device))
      ensures r.Ok? ==> fresh(r.value) && r.value.Valid()
      ensures r.Ok? ==> r.value.remoMode == Some(appliance.settings.mode)
      ensures r.Ok? ==> r.value.modes == appliance.modes && r.value.applianceId == appliance.id
      ensures r.Ok? ==> r.value.deviceId == device.id
      ensures r.Ok? ==>
        var settings := appliance.settings;
        && r.value.hvacMode == SettingsHvacMode(settings)
        && r.value.targetTemperature == (if settings.temp == "" then None else Decimal.Parse(settings.temp))
        && r.value.lastTargetTemperature ==
             (if settings.temp == "" then NoHistory else NoHistory[settings.mode := Some(settings.temp)])
        && r.value.fanMode == OrNone(settings.vol) && r.value.swingMode == OrNone(settings.dir)
        && r.value.currentTemperature == Some(Lookup(device.newestEvents, "te").value.val)
    {
      var ac := new NatureRemoAC.Init(device, appliance);
      var err := ac.Update(appliance.settings, Some(device));
      if err.Some? {
        r := Err(err.value);
      } else {
        r := Ok(ac);
      }
    }

    /** The state `_update(settings, device)` leaves behind, relative to the
        state before it, including the fields assigned before an exception. */
    twostate predicate AppliedSettings(settings: AcSettings, device: Option<Device>)
      reads this
    {
      // the vendor mode is kept even while the AC is off
      && (remoMode == Some(settings.mode))
      && (TempRejected(settings) ==>
          && targetTemperature == old(targetTemperature)
          && lastTargetTemperature == old(lastTargetTemperature)
          && hvacMode == old(hvacMode) && fanMode == old(fanMode) && swingMode == old(swingMode)
          && currentTemperature == old(currentTemperature))
      && (settings.temp == "" ==>
          targetTemperature == None && lastTargetTemperature == old(lastTargetTemperature))
      && (settings.temp != "" && !TempRejected(settings) ==>
          && targetTemperature == Decimal.Parse(settings.temp)
          && lastTargetTemperature == old(lastTargetTemperature)[settings.mode := Some(settings.temp)])
      && (!TempRejected(settings) && ModeRejected(settings) ==>
          && hvacMode == old(hvacMode) && fanMode == old(fanMode) && swingMode == old(swingMode)
          && currentTemperature == old(currentTemperature))
      && (!TempRejected(settings) && !ModeRejected(settings) ==>
          && hvacMode == SettingsHvacMode(settings)
          && fanMode == OrNone(settings.vol)
          && swingMode == OrNone(settings.dir))
      && (!TempRejected(settings) && !ModeRejected(settings) ==>
          (currentTemperature ==
            match device
            case None => old(currentTemperature)
            case Some(d) =>
              match Lookup(d.newestEvents, "te")
              case None => old(currentTemperature)
              case Some(event) => Some(event.val)))
    }

    /** `_update`: copy a settings record (and, when given, the device's
        latest temperature reading) into the entity. An exception leaves the
        fields assigned before it in place. */
    method Update(settings: AcSettings, device: Option<Device>) returns (err: Option<Error>)
      requires HistoryValid(lastTargetTemperature)
      modifies this
      ensures HistoryValid(lastTargetTemperature)
      ensures err == UpdateFailure(settings, device)
      ensures AppliedSettings(settings, device)
    {
      remoMode := Some(settings.mode);

      if |settings.temp| > 0 {
        var parsed := Decimal.Parse(settings.temp);
        if parsed.None? {
          return Some(ValueError(settings.temp));
        }
        targetTemperature := parsed;
        HistoryValidAfterStore(lastTargetTemperature, settings.mode, settings.temp);
        lastTargetTemperature := lastTargetTemperature[settings.mode := Some(settings.temp)];
      } else {
        targetTemperature := None;
      }

      var off := ModeHaToRemo[Off];
      assert off == PowerOff;
      if settings.button == off {
        hvacMode := Some(Off);
      } else {
        if settings.mode !in ModeRemoToHa {
          return Some(KeyError(settings.mode));
        }
        hvacMode := Some(ModeRemoToHa[settings.mode]);
      }

      fanMode := OrNone(settings.vol);
      swingMode := OrNone(settings.dir);

      if device.Some? {
        var event := Lookup(device.value.newestEvents, "te");
        if event.None? {
          return Some(KeyError("te"));
        }
        currentTemperature := Some(event.value.val);
      }
      return None;
    }

    /** `_handle_coordinator_update`: apply the refreshed settings of this
        appliance and the temperature reading of its device. The capability
        table read at creation is kept. */
    method HandleCoordinatorUpdate(devices: map<string, Device>, appliances: map<string, Appliance>)
      returns (err: Option<Error>)
      requires HistoryValid(lastTargetTemperature)
      modifies this
      ensures HistoryValid(lastTargetTemperature)
      ensures deviceId !in devices ==> err == Some(KeyError(deviceId)) && unchanged(this)
      ensures deviceId in devices && applianceId !in appliances ==>
        err == Some(KeyError(applianceId)) && unchanged(this)
      ensures deviceId in devices && applianceId in appliances ==>
        && err == UpdateFailure(appliances[applianceId].settings, Some(devices[deviceId]))
        && AppliedSettings(appliances[applianceId].settings, Some(devices[deviceId]))
    {
      if deviceId !in devices {
        return Some(KeyError(deviceId));
      }
      if applianceId !in appliances {
        return Some(KeyError(applianceId));
      }
      err := Update(appliances[applianceId].settings, Some(devices[deviceId]));
    }

    /** `_modes[_remo_mode]`. */
    function CurrentModeRange(): (r: Result<ModeRange>)
      requires Valid()
      reads this
      ensures r.Err? <==> remoMode.value !in Keys(modes)
      ensures r.Err? ==> r.error == KeyError(remoMode.value)
      ensures r.Ok? ==> (remoMode.value, r.value) in modes
    {
      match Lookup(modes, remoMode.value)
      case None => Err(KeyError(remoMode.value))
      case Some(range) => Ok(range)
    }

    /** The capability table is a dictionary, so the current mode's range is
        the entry stored under that mode. */
    lemma CurrentModeRangeIsEntry(i: nat)
      requires Valid() && DistinctKeys(modes) && i < |modes| && modes[i].0 == remoMode.value
      ensures CurrentModeRange() == Ok(modes[i].1)
    {
      LookupEntry(modes, i);
    }

    /** `_current_mode_temp_range`: the current mode's selectable temperatures
        as numbers, empty entries dropped. */
    function CurrentModeTempRange(): (r: Result<seq<real>>)
      requires Valid()
      reads this
      ensures CurrentModeRange().Err? ==> r == Err(CurrentModeRange().error)
      ensures CurrentModeRange().Ok? ==>
        var texts := NonEmpty(CurrentModeRange().value.temp);
        && (r.Ok? <==> forall i :: 0 <= i < |texts| ==> Decimal.Parse(texts[i]).Some?)
        && (r.Ok? ==> (|r.value| == |texts|
              && forall i :: 0 <= i < |texts| ==> Decimal.Parse(texts[i]) == Some(r.value[i])))
        && (r.Err? ==> r.error.ValueError? && r.error.text in texts && Decimal.Parse(r.error.text).None?)
    {
      match CurrentModeRange()
      case Err(e) => Err(e)
      case Ok(range) =>
        var texts := NonEmpty(range.temp);
        var r := ParseAll(texts);
        assert CurrentModeRange() == Ok(range);
        assert texts == NonEmpty(CurrentModeRange().value.temp);
        r
    }

    /** `min_temp`: 0 for an empty range, else its smallest value. */
    function MinTemp(): (r: Result<real>)
      requires Valid()
      reads this
      ensures r.Ok? <==> CurrentModeTempRange().Ok?
      ensures r.Ok? && CurrentModeTempRange().value == [] ==> r.value == 0.0
      ensures r.Ok? && CurrentModeTempRange().value != [] ==>
        var range := CurrentModeTempRange().value;
        r.value in range && forall t :: t in range ==> r.value <= t
    {
      match CurrentModeTempRange()
      case Err(e) => Err(e)
      case Ok(range) => if |range| == 0 then Ok(0.0) else Ok(Min(range))
    }

    /** `max_temp`: 0 for an empty range, else its largest value. */
    function MaxTemp(): (r: Result<real>)
      requires Valid()
      reads this
      ensures r.Ok? <==> CurrentModeTempRange().Ok?
      ensures r.Ok? && CurrentModeTempRange().value == [] ==> r.value == 0.0
      ensures r.Ok? && CurrentModeTempRange().value != [] ==>
        var range := CurrentModeTempRange().value;
        r.value in range && forall t :: t in range ==> t <= r.value
    {
      match CurrentModeTempRange()
      case Err(e) => Err(e)
      case Ok(range) => if |range| == 0 then Ok(0.0) else Ok(Max(range))
    }

    /** `target_temperature_step`: the gap between the first two selectable
        temperatures when it rounds to 1.0 or 0.5, and 1 otherwise. */
    function TargetTemperatureStep(): (r: Result<real>)
      requires Valid()
      reads this
      ensures r.Ok? <==> CurrentModeTempRange().Ok?
      ensures r.Ok? ==> r.value == 0.5 || r.value == 1.0
      ensures r.Ok? ==>
        var range := CurrentModeTempRange().value;
        (r.value == 0.5 <==> |range| >= 2 && 0.45 < range[1] - range[0] < 0.55)
    {
      match CurrentModeTempRange()
      case Err(e) => Err(e)
      case Ok(range) =>
        if |range| >= 2 then
          var step := Decimal.RoundTenth(range[1] - range[0]);
          Decimal.RoundTenthIsHalf(range[1] - range[0]);
          Decimal.RoundTenthIsOne(range[1] - range[0]);
          if step == 1.0 || step == 0.5 then Ok(step) else Ok(1.0)
        else Ok(1.0)
    }

    /** `hvac_modes`: the host mode of every supported vendor mode, in the
        capability table's order, followed by OFF. */
    function HvacModes(): (r: Result<seq<HvacMode>>)
      reads this
      ensures r.Ok? <==> forall i :: 0 <= i < |modes| ==> modes[i].0 in ModeRemoToHa
      ensures r.Ok? ==> |r.value| == |modes| + 1 && r.value[|modes|] == Off
      ensures r.Ok? ==> forall i :: 0 <= i < |modes| ==> r.value[i] == ModeRemoToHa[modes[i].0]
      ensures r.Err? ==> r.error.KeyError? && r.error.key in Keys(modes) && r.error.key !in ModeRemoToHa
    {
      match ToHaModes(Keys(modes))
      case Err(e) => Err(e)
      case Ok(haModes) => Ok(haModes + [Off])
    }

    /** `fan_modes`: the current mode's fan volumes. */
    function FanModes(): (r: Result<seq<string>>)
      requires Valid()
      reads this
      ensures r.Err? <==> remoMode.value !in Keys(modes)
      ensures r.Err? ==> r.error == KeyError(remoMode.value)
      ensures r.Ok? ==> (remoMode.value, CurrentModeRange().value) in modes
      ensures r.Ok? ==> r.value == CurrentModeRange().value.vol
    {
      match CurrentModeRange()
      case Err(e) => Err(e)
      case Ok(range) => Ok(range.vol)
    }

    /** `swing_modes`: the current mode's air directions. */
    function SwingModes(): (r: Result<seq<string>>)
      requires Valid()
      reads this
      ensures r.Err? <==> remoMode.value !in Keys(modes)
      ensures r.Err? ==> r.error == KeyError(remoMode.value)
      ensures r.Ok? ==> (remoMode.value, CurrentModeRange().value) in modes
      ensures r.Ok? ==> r.value == CurrentModeRange().value.dir
    {
      match CurrentModeRange()
      case Err(e) => Err(e)
      case Ok(range) => Ok(range.dir)
    }

    /** `async_set_hvac_mode`: the payload that switches the AC to `mode`. */
    method SetHvacMode(mode: HvacMode) returns (payload: Payload)
      requires Valid()
      ensures mode == Off ==> payload == map["button" := Text(PowerOff)]
      ensures mode != Off ==>
        && "operation_mode" in payload && payload["operation_mode"] == Text(ModeHaToRemo[mode])
        && "button" !in payload
        && payload.Keys <= {"operation_mode", "temperature"}
      ensures mode != Off ==>
        var remembered := lastTargetTemperature[ModeHaToRemo[mode]];
        && ("temperature" in payload <==> remembered.Some? || mode == Cool || mode == Heat)
        && (remembered.Some? ==> payload["temperature"] == Text(remembered.value))
        && (remembered.None? && (mode == Cool || mode == Heat) ==> payload["temperature"] == Integer(20))
    {
      var remo := ModeHaToRemo[mode];
      if remo == ModeHaToRemo[Off] {
        payload := map["button" := Text(remo)];
      } else {
        var data := map["operation_mode" := Text(remo)];
        var last := lastTargetTemperature[remo];
        if last.Some? && last.value != "" {
          data := data["temperature" := Text(last.value)];
        } else if mode in DefaultTemp && DefaultTemp[mode] != 0 {
          data := data["temperature" := Integer(DefaultTemp[mode])];
        }
        payload := data;
      }
    }

    /** `async_set_temperature`: nothing to post without a temperature, else
        the payload with the temperature as text. The requested temperature
        is given in tenths of a degree. */
    method SetTemperature(tenths: Option<int>) returns (payload: Option<Payload>)
      ensures payload.None? <==> tenths.None?
      ensures payload.Some? ==>
        && payload.value.Keys == {"temperature"}
        && payload.value["temperature"] == Text(Decimal.FormatTenths(tenths.value))
        && Decimal.Parse(payload.value["temperature"].s) == Some(tenths.value as real / 10.0)
        && ('.' in payload.value["temperature"].s <==> tenths.value % 10 != 0)
    {
      if tenths.None? {
        return None;
      }
      var text := Decimal.FormatTenths(tenths.value);
      Decimal.FormatTenthsRoundTrip(tenths.value);
      Decimal.FormatTenthsPoint(tenths.value);
      payload := Some(map["temperature" := Text(text)]);
    }

    /** `async_set_fan_mode`: the payload that selects a fan volume. */
    method SetFanMode(fan: string) returns (payload: Payload)
      ensures payload.Keys == {"air_volume"} && payload["air_volume"] == Text(fan)
    {
      payload := map["air_volume" := Text(fan)];
    }

    /** `async_set_swing_mode`: the payload that selects an air direction. */
    method SetSwingMode(swing: string) returns (payload: Payload)
      ensures payload.Keys == {"air_direction"} && payload["air_direction"] == Text(swing)
    {
      payload := map["air_direction" := Text(swing)];
    }
  }

  /** Both read-outs of the temperature range agree: the minimum never exceeds
      the maximum. */
  lemma MinTempAtMostMaxTemp(ac: NatureRemoAC)
    requires ac.Valid() && ac.MinTemp().Ok?
    ensures ac.MaxTemp().Ok? && ac.MinTemp().value <= ac.MaxTemp().value
  {
    var range := ac.CurrentModeTempRange().value;
    if range != [] {
      assert ac.MaxTemp().value in range;
    }
  }

  /** A target temperature reported in a vendor mode is the one requested
      when the host later switches back to that mode. */
  method RememberedTargetIsResent(ac: NatureRemoAC, settings: AcSettings, mode: HvacMode)
    returns (payload: Payload)
    requires HistoryValid(ac.lastTargetTemperature)
    requires mode != Off && ModeHaToRemo[mode] == settings.mode
    requires settings.temp != "" && UpdateFailure(settings, None).None?
    modifies ac
    ensures "temperature" in payload && payload["temperature"] == Text(settings.temp)
  {
    var err := ac.Update(settings, None);
    payload := ac.SetHvacMode(mode);
  }
}
