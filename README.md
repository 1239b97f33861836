# Nature Remo integration: AC entity and sensors

A model of the entity layer of the Nature Remo integration for Home
Assistant. The layer has two parts:

- The air-conditioner entity `NatureRemoAC` (module `Climate`). It keeps the
  vendor's current AC settings in its fields. It keeps a per-mode history of
  the last target temperature. It derives the host's read-outs (temperature
  range, step, modes) from the appliance's capability table. It builds the
  JSON payloads that commands post to the cloud.
- The sensor entities (module `Sensor`). Setup makes one measurement sensor
  per event key of a device and one motion binary sensor. The motion sensor
  is on when its last event is recent. Coordinator callbacks refresh both.

Supporting modules:

- `Types`: optional values, results, and the two Python exceptions that
  entity code raises (`KeyError`, `ValueError`). It also holds the vendor's
  device records and JSON payload values.
- `Dict`: a Python dictionary as an association list in insertion order.
- `Decimal`: three operations on temperature text. `float(text)` for plain
  decimal notation gives an exact `real`. The payload text of a requested
  temperature is written from tenths of a degree. `round(x, 1)` rounds half
  to even.

Python exceptions are results (`Result`, `Option<Error>`). Where `_update`
raises part-way through, the fields assigned before the exception keep their
new values, as in Python. Clock readings are a `now` argument.
`created_at` timestamps are integer microseconds since the epoch.

## Model

| member | source | states |
|---|---|---|
| `Climate.ModeTablesInverse` | custom_components/nature_remo/climate.py:25-41 | The host-to-vendor and vendor-to-host mode tables are inverse bijections: every one of the six host modes has a vendor string, the vendor table has exactly those strings as keys, and each maps back to where it came from. |
| `Climate.SettingsHvacMode` | custom_components/nature_remo/climate.py:257-260 | The HVAC mode from a settings record fails exactly when the AC is on in an unknown vendor mode. It is OFF exactly when `button` is `"power-off"` or the vendor mode is `"power-off"`. Otherwise it maps back to the vendor mode. |
| `Climate.NatureRemoAC.Update` | custom_components/nature_remo/climate.py:247-266 | The vendor mode is recorded even while off. A non-empty numeric `temp` sets the target and records the text under that vendor mode only. An empty `temp` clears the target and leaves the history alone. Non-numeric `temp` raises `ValueError` before anything but the mode changes. An unknown mode while on raises `KeyError` after the temperature fields. Empty `vol`/`dir` become no fan/swing mode. The device's `te` reading becomes the current temperature. The history invariant is kept. |
| `Climate.NatureRemoAC.Create` | custom_components/nature_remo/climate.py:72-95 | An entity exists exactly when the initial `_update` raises nothing. It then satisfies the invariant. It holds the appliance's id and mode table and the device's id. Its state is the first `_update` applied to an empty history: the settings' vendor mode and HVAC mode, the parsed target temperature, fan and swing, and the device's `te` reading. The history remembers the settings' temperature under their mode, if there is one. |
| `Climate.NatureRemoAC.HandleCoordinatorUpdate` | custom_components/nature_remo/climate.py:279-284 | A missing device or appliance raises `KeyError` and changes nothing. Otherwise the refreshed settings and device are applied exactly as `_update` applies them. |
| `Climate.NatureRemoAC.CurrentModeRange` | custom_components/nature_remo/climate.py:276 | The current mode's capability entry. `KeyError` exactly when the vendor mode is not in the table. |
| `Climate.NatureRemoAC.CurrentModeRangeIsEntry` | custom_components/nature_remo/climate.py:276 | With the table's keys distinct, as in a dictionary, the range is the entry stored under the current vendor mode. |
| `Climate.NatureRemoAC.CurrentModeTempRange` | custom_components/nature_remo/climate.py:275-277 | The numbers of the current mode's non-empty temperature texts, one per text and in order. `ValueError` exactly when one of them is not a number. |
| `Climate.NonEmpty` | custom_components/nature_remo/climate.py:277 | The filtered list holds exactly the non-empty texts and is no longer than the input. |
| `Climate.NonEmptyAppend` | custom_components/nature_remo/climate.py:277 | Filtering distributes over concatenation, so order and repeats are kept. This fixes which texts `target_temperature_step` reads as entries 0 and 1. |
| `Climate.NonEmptySingle` | custom_components/nature_remo/climate.py:277 | A single text is kept exactly when it is non-empty. |
| `Climate.ParseAll` | custom_components/nature_remo/climate.py:277 | It succeeds exactly when every text parses, and then gives each text's value at its position. Otherwise it fails with the `ValueError` of the first text that does not parse. |
| `Climate.NatureRemoAC.MinTemp` | custom_components/nature_remo/climate.py:134-140 | 0 for an empty range. Otherwise a member of the range that no member is below. |
| `Climate.NatureRemoAC.MaxTemp` | custom_components/nature_remo/climate.py:142-148 | 0 for an empty range. Otherwise a member of the range that no member exceeds. |
| `Climate.Min` | custom_components/nature_remo/climate.py:140 | The minimum is an element and a lower bound of the sequence. |
| `Climate.Max` | custom_components/nature_remo/climate.py:148 | The maximum is an element and an upper bound of the sequence. |
| `Climate.MinTempAtMostMaxTemp` | custom_components/nature_remo/climate.py:134-148 | Whenever `min_temp` is defined, so is `max_temp`, and `min_temp` does not exceed it. |
| `Climate.NatureRemoAC.TargetTemperatureStep` | custom_components/nature_remo/climate.py:156-165 | The step is always 0.5 or 1. It is 0.5 exactly when the range has two or more values and the first gap rounds to 0.5, that is, lies strictly between 0.45 and 0.55. |
| `Decimal.RoundTenthIsOne` | custom_components/nature_remo/climate.py:162-163 | `round(gap, 1) == 1.0` exactly when 0.95 <= gap <= 1.05. |
| `Decimal.RoundTenthIsHalf` | custom_components/nature_remo/climate.py:162-163 | `round(gap, 1) == 0.5` exactly when 0.45 < gap < 0.55. |
| `Climate.NatureRemoAC.HvacModes` | custom_components/nature_remo/climate.py:172-178 | One host mode per supported vendor mode, in table order, then OFF. `KeyError` exactly when a vendor mode is not in the table. |
| `Climate.ToHaModes` | custom_components/nature_remo/climate.py:175-176 | Each vendor mode is mapped to its host mode at the same position. Otherwise the result is the `KeyError` of the first unknown one. |
| `Climate.NatureRemoAC.FanModes` | custom_components/nature_remo/climate.py:185-188 | The current mode's fan volumes. `KeyError` exactly when the vendor mode is not in the table. |
| `Climate.NatureRemoAC.SwingModes` | custom_components/nature_remo/climate.py:195-198 | The current mode's air directions. `KeyError` exactly when the vendor mode is not in the table. |
| `Climate.NatureRemoAC.SetHvacMode` | custom_components/nature_remo/climate.py:218-232 | OFF gives exactly `{"button": "power-off"}`. Any other mode gives `operation_mode` = its vendor string. `temperature` is the remembered text for that vendor mode if there is one, else 20 for COOL and HEAT, else absent. No other key is present. |
| `Climate.NatureRemoAC.SetTemperature` | custom_components/nature_remo/climate.py:207-216 | Nothing is posted without a temperature. Otherwise the payload has only `temperature`, as the text `FormatTenths` writes (`str(int(t))` for a whole number, otherwise `str(t)`). That text reads back as the requested value and has a decimal point exactly when the value is not a whole number. |
| `Climate.NatureRemoAC.SetFanMode` | custom_components/nature_remo/climate.py:234-237 | The payload is exactly `{"air_volume": fan}`. |
| `Climate.NatureRemoAC.SetSwingMode` | custom_components/nature_remo/climate.py:239-242 | The payload is exactly `{"air_direction": swing}`. |
| `Climate.RememberedTargetIsResent` | custom_components/nature_remo/climate.py:218-253 | After an update that reports a target in a vendor mode, switching the host back to that mode posts that same target text. |
| `Decimal.FormatTenthsRoundTrip` | custom_components/nature_remo/climate.py:212-216 | Parsing the temperature text sent to the cloud gives back the requested temperature. |
| `Decimal.FormatTenthsPoint` | custom_components/nature_remo/climate.py:212-214 | Whole-degree temperatures are sent without a fractional part. |
| `Decimal.NatText` | custom_components/nature_remo/climate.py:214-216 | The decimal digits of a natural number denote that number, without leading zeros. |
| `Decimal.Parse` | custom_components/nature_remo/climate.py:252 | `float` of empty text fails with `ValueError`. |
| `Decimal.ParseDecimalText` | custom_components/nature_remo/climate.py:252 | `float` of digits, optionally followed by a point and more digits (the vendor's "16" and "16.5"), is the number those digits denote. |
| `Decimal.ParseOnlyNumerals` | custom_components/nature_remo/climate.py:252 | Only numerals parse: a text `float` accepts is an optional sign, then digits with at most one decimal point and at least one digit. Any other text raises `ValueError`. |
| `Decimal.ParseNegativeDecimalText` | custom_components/nature_remo/climate.py:252 | `float` of the same text after a minus sign is its negation. |
| `Dict.Lookup` | custom_components/nature_remo/sensor.py:93 | A lookup fails exactly when the key is absent. Otherwise it returns a value stored under that key. |
| `Dict.LookupFirst` | custom_components/nature_remo/sensor.py:93 | A lookup returns the value of the first entry stored under the key. |
| `Dict.LookupEntry` | custom_components/nature_remo/sensor.py:53 | In a dictionary, looking up an entry's key gives that entry's value. |
| `Sensor.MeasurementKeys` | custom_components/nature_remo/sensor.py:34-37 | The measurement keys are exactly the `newest_events` keys other than `"mo"`. |
| `Sensor.MeasurementKeysAppend` | custom_components/nature_remo/sensor.py:34-37 | The measurement keys of two runs of events are those of the first run followed by those of the second, so the keys keep the order of `newest_events`. |
| `Sensor.MeasurementKeysSingle` | custom_components/nature_remo/sensor.py:34-37 | A single event gives its key unless it is `"mo"`. |
| `Sensor.MeasurementKeysDistinct` | custom_components/nature_remo/sensor.py:34-37 | Each measurement key occurs once, so each gets exactly one sensor. |
| `Sensor.MeasurementSensors` | custom_components/nature_remo/sensor.py:34-37 | The setup loop makes one measurement sensor for each key other than `"mo"`, in `newest_events` order, and each sensor describes its key. It fails with `KeyError` exactly when some such key has no unit, and the error names the first such key. |
| `Sensor.SetupEntry` | custom_components/nature_remo/sensor.py:20-42 | Setup makes one measurement sensor per non-motion key, in order, each with its id, name, unit, class and reading. The motion sensor comes last, exactly when `"mo"` is a key. A non-motion key with no unit raises `KeyError` naming the first such key, and then no entity is made. |
| `Sensor.MeasurementTablesExcludeMotion` | custom_components/nature_remo/const.py:16-26 | The unit and class tables cover exactly the named keys other than `"mo"`. |
| `Sensor.SensorIdsDistinct` | custom_components/nature_remo/sensor.py:50 | Distinct keys of a device give distinct `"<device id>-<key>"` ids. |
| `Sensor.SensorNamesDistinct` | custom_components/nature_remo/sensor.py:52 | Distinct keys of a device give distinct `"<device name> <label> Sensor"` names. |
| `Sensor.NatureSensor.constructor` | custom_components/nature_remo/sensor.py:48-61 | A new measurement sensor has the key's id, name, unit, class and current reading, and is available. |
| `Sensor.NatureSensor.HandleCoordinatorUpdate` | custom_components/nature_remo/sensor.py:89-95 | The sensor takes its key's latest `val` from the refreshed device and becomes available. A missing device or key raises `KeyError` and changes nothing. |
| `Sensor.NatureMotionSensor.constructor` | custom_components/nature_remo/sensor.py:106-117 | A new motion sensor has the `"mo"` id and name and the latest motion instant, and is available. |
| `Sensor.NatureMotionSensor.HandleCoordinatorUpdate` | custom_components/nature_remo/sensor.py:151-156 | The sensor takes the newest `created_at` of its key and becomes available. A missing device or key raises `KeyError` and changes nothing. |
| `Sensor.NatureMotionSensor.IsOn` | custom_components/nature_remo/sensor.py:131-135 | On exactly when the time since the last event, taken modulo whole days, is under a minute. Within the first day this agrees with "under a minute old". |
| `Sensor.Elapsed` | custom_components/nature_remo/sensor.py:134 | `now - last_update` in `timedelta` normal form: the seconds lie in [0, 86400), the microseconds in [0, 10^6), and the parts add back up to the difference. |
| `Sensor.ElapsedUnique` | custom_components/nature_remo/sensor.py:134 | That normal form is the only in-range decomposition. |
| `Sensor.MotionIgnoresDays` | custom_components/nature_remo/sensor.py:134-135 | Adding whole days to the elapsed time never changes the reading. |
| `Sensor.OneDayOldEventIsMotion` | custom_components/nature_remo/sensor.py:134-135 | An event 1 day and 30 s old reads as motion. |
| `Sensor.FutureEventIsNoMotion` | custom_components/nature_remo/sensor.py:134-135 | An event stamped less than 23 h 59 min in the future reads as no motion. |
| `Sensor.RecentMotionIsAge` | custom_components/nature_remo/sensor.py:99-104 | The corrected reading is on exactly when the event is less than a minute old. |
| `Sensor.RecentMotionAgreesWithinADay` | custom_components/nature_remo/sensor.py:131-135 | Within a day of the event, the reading as written and the corrected reading agree. |

## Left out

- Network, polling and the host framework are not modelled. This covers the REST client and the polling coordinator (`__init__.py`), the configuration wizard (`config_flow.py`), `async_write_ha_state`, `async_request_refresh`, `async_add_entities`, `device_info`, the climate entity's display name `_name` (custom_components/nature_remo/climate.py:75) and logging. The sensors' names are modelled. They are I/O or are owned by the host.
- `HvacMode` holds only the six host modes of the mode tables. The host's `HEAT_COOL` is left out. For it, `async_set_hvac_mode` would raise `KeyError` at `MODE_HA_TO_REMO[hvac_mode]` (custom_components/nature_remo/climate.py:221). The entity only offers the modes of `hvac_modes`, and those never include it.
- The climate platform's `async_setup_entry` is not modelled. It picks the appliances of type `AC` on the entry's device and builds each with `Create`.
- `_post` is not modelled. Commands are modelled as the payload they would post. After the post, `_post` calls `_update` on the return value of `async_post`. That return value is always `None`, so `_update` raises `TypeError` there and never reaches `async_write_ha_state`. This path is left out because it depends on the REST client.
- Temperatures read from vendor text are exact reals. `Decimal.Parse` accepts an optional sign and digits with at most one decimal point. `float` also accepts exponents, surrounding blanks, underscores, `inf`, `nan` and non-ASCII decimal digits such as full-width ones; here these count as non-numbers. Binary floating-point error in the subtraction before `round` is not modelled.
- `Climate.NatureRemoAC.SetTemperature`: the requested temperature is given in tenths of a degree. Finer values the host could pass, and Python's float `repr` of them, are not modelled.
- Vendor records are assumed to have every field the code reads: `temp`, `mode`, `vol`, `dir` and `button` in settings, `temp`, `vol` and `dir` in each mode entry, and `val` and `created_at` in each event. The constructors also read `aircon.range.modes`, `model.name` and `model.manufacturer` of an appliance (custom_components/nature_remo/climate.py:75, 82, 91-92), and `serial_number` and `firmware_version` of a device (custom_components/nature_remo/climate.py:93-94, custom_components/nature_remo/sensor.py:60-61, 116-117). A missing field would raise `KeyError`; `Create` and the sensor constructors do not model that error.
- `Sensor.NatureSensor.constructor` requires a key with a unit. In Python the constructor itself raises `KeyError` for such a key. Here `MeasurementSensors` checks the key first and returns that error.
- Parsing `created_at` with `dateutil` and reading the clock are not modelled. Instants are microseconds since the epoch, passed in as numbers; time zones are not modelled.

## Findings

| source | as written | input that shows it | evidently intended | confidence | as-written member | corrected member |
|---|---|---|---|---|---|---|
| custom_components/nature_remo/sensor.py:134 | `(now - last_update).seconds < 60` reads only the seconds-within-the-day component of the `timedelta` | A last motion event 1 day and 30 s old reads as motion. A timestamp 10 s in the future (from clock skew) reads as no motion. | Motion when the event is under a minute old (`total_seconds() < 60`), as the class comment says | high; not executed | `Sensor.OneDayOldEventIsMotion` | `Sensor.RecentMotionIsAge` |
