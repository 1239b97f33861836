/** The sensor entities of a device: one measurement sensor per reading
    (humidity, illuminance, temperature) and one motion binary sensor whose
    state is derived from the age of the last motion event. */
module Sensor {
  import opened Types
  import opened Dict

  /** The host's device classes of measurement sensors. */
  datatype SensorDeviceClass = Humidity | Illuminance | Temperature

  /** The host's units of measurement: `PERCENTAGE`, `ILLUMINANCE` and
      `TEMP_CELSIUS`. */
  datatype Unit = Percentage | IlluminanceUnit | TempCelsius

  /** The event key of the motion sensor. */
  const MotionKey: string := "mo"

  const SensorNames: map<string, string> := map[
    "hu" := "Humidity",
    "il" := "Illumination",
    "te" := "Temperature",
    "mo" := "Motion"
  ]

  const SensorClasses: map<string, SensorDeviceClass> := map[
    "hu" := Humidity,
    "il" := Illuminance,
    "te" := Temperature
  ]

  const SensorUnits: map<string, Unit> := map[
    "hu" := Percentage,
    "il" := IlluminanceUnit,
    "te" := TempCelsius
  ]

  /** The unit and class tables describe exactly the named keys other than
      motion, so every measurement sensor has both and motion has neither. */
  lemma MeasurementTablesExcludeMotion()
    ensures SensorUnits.Keys == SensorClasses.Keys == SensorNames.Keys - {MotionKey}
  {
  }

  /** The unique id of a device's sensor: `"<device id>-<key>"`. */
  function SensorId(deviceId: string, key: string): string
  {
    deviceId + "-" + key
  }

  /** The name of a device's sensor: `"<device name> <label> Sensor"`. */
  function SensorName(deviceName: string, key: string): string
    requires key in SensorNames
  {
    deviceName + " " + SensorNames[key] + " Sensor"
  }

  /** Distinct keys of one device give distinct unique ids. */
  lemma SensorIdsDistinct(deviceId: string, key1: string, key2: string)
    requires key1 != key2
    ensures SensorId(deviceId, key1) != SensorId(deviceId, key2)
  {
    var n := |deviceId| + 1;
    assert SensorId(deviceId, key1)[n..] == key1;
    assert SensorId(deviceId, key2)[n..] == key2;
  }

  /** Distinct keys of one device give distinct names. */
  lemma SensorNamesDistinct(deviceName: string, key1: string, key2: string)
    requires key1 in SensorNames && key2 in SensorNames && key1 != key2
    ensures SensorName(deviceName, key1) != SensorName(deviceName, key2)
  {
  }

  /** The keys of `newest_events` that become measurement sensors, in order:
      all but the motion key. */
  function MeasurementKeys(events: seq<(string, Event)>): (ks: seq<string>)
    ensures |ks| <= |events|
    ensures forall k :: k in ks <==> k in Keys(events) && k != MotionKey
  {
    if events == [] then []
    else
      var init, last := events[..|events| - 1], events[|events| - 1].0;
      KeysOfInit(events);
      MeasurementKeys(init) + (if last != MotionKey then [last] else [])
  }

  /** Filtering keeps order: the measurement keys of two runs of events are
      those of the first run followed by those of the second. */
  lemma {:induction false} MeasurementKeysAppend(a: seq<(string, Event)>, b: seq<(string, Event)>)
    ensures MeasurementKeys(a + b) == MeasurementKeys(a) + MeasurementKeys(b)
    decreases |b|
  {
    if b == [] {
      assert a + b == a;
    } else {
      var init := b[..|b| - 1];
      assert (a + b)[..|a + b| - 1] == a + init;
      assert (a + b)[|a + b| - 1] == b[|b| - 1];
      MeasurementKeysAppend(a, init);
    }
  }

  /** A single event gives its key unless it is the motion key. */
  lemma MeasurementKeysSingle(event: (string, Event))
    ensures MeasurementKeys([event]) == if event.0 != MotionKey then [event.0] else []
  {
    assert [event][..0] == [];
  }

  /** Each measurement key of a device occurs once, so setup creates exactly
      one measurement sensor per key. */
  lemma {:induction false} MeasurementKeysDistinct(events: seq<(string, Event)>)
    requires DistinctKeys(events)
    ensures forall i, j :: 0 <= i < j < |MeasurementKeys(events)| ==>
      MeasurementKeys(events)[i] != MeasurementKeys(events)[j]
  {
    if events != [] {
      var init, last := events[..|events| - 1], events[|events| - 1].0;
      MeasurementKeysDistinct(init);
      assert last !in Keys(init) by {
        forall j | 0 <= j < |init| ensures Keys(init)[j] != last {
          assert init[j] == events[j];
        }
      }
      assert last !in MeasurementKeys(init);
    }
  }

  const MicrosPerSecond: int := 1_000_000
  const SecondsPerDay: int := 86_400
  const MicrosPerDay: int := 86_400_000_000

  /** A `timedelta` in Python's normal form: whole days (possibly negative),
      seconds within the day and microseconds within the second. */
  datatype Duration = Duration(days: int, seconds: int, microseconds: int)

  /** `now - last_update` for two instants in microseconds, normalised as
      `timedelta` does. */
  function Elapsed(micros: int): (d: Duration)
    ensures 0 <= d.seconds < SecondsPerDay && 0 <= d.microseconds < MicrosPerSecond
    ensures d.days * MicrosPerDay + d.seconds * MicrosPerSecond + d.microseconds == micros
  {
    var rest := micros % MicrosPerDay;
    Duration(micros / MicrosPerDay, rest / MicrosPerSecond, rest % MicrosPerSecond)
  }

  /** The normal form is unique: any in-range decomposition is `Elapsed`. */
  lemma ElapsedUnique(micros: int, d: Duration)
    requires 0 <= d.seconds < SecondsPerDay && 0 <= d.microseconds < MicrosPerSecond
    requires d.days * MicrosPerDay + d.seconds * MicrosPerSecond + d.microseconds == micros
    ensures d == Elapsed(micros)
  {
    var rest := d.seconds * MicrosPerSecond + d.microseconds;
    assert 0 <= rest < MicrosPerDay;
    assert micros / MicrosPerDay == d.days && micros % MicrosPerDay == rest;
  }

  /** `is_on`: motion when the seconds component of the elapsed time is below
      a minute; the days component plays no part. */
  predicate MotionDetected(d: Duration)
  {
    d.seconds < 60
  }

  /** Whole days added to the elapsed time never change the reading. */
  lemma MotionIgnoresDays(micros: int, days: int)
    ensures MotionDetected(Elapsed(micros + days * MicrosPerDay)) == MotionDetected(Elapsed(micros))
  {
    var d := Elapsed(micros);
    ElapsedUnique(micros + days * MicrosPerDay, Duration(d.days + days, d.seconds, d.microseconds));
  }

  /** An event a day and thirty seconds old reads as motion. */
  lemma OneDayOldEventIsMotion()
    ensures MotionDetected(Elapsed(MicrosPerDay + 30 * MicrosPerSecond))
  {
  }

  /** An event stamped up to 23 h 59 min in the future reads as no motion:
      the negative difference normalises to -1 day and more than 59 s. */
  lemma FutureEventIsNoMotion(micros: int)
    requires -(SecondsPerDay - 60) * MicrosPerSecond < micros < 0
    ensures !MotionDetected(Elapsed(micros))
  {
  }

  /** What the motion heuristic evidently means: the event is less than a
      minute old, that is `timedelta.total_seconds() < 60`, counting whole
      days as well as seconds. */
  predicate RecentMotion(d: Duration)
  {
    d.days * SecondsPerDay + d.seconds < 60
  }

  /** The corrected reading is "the event happened less than a minute ago"
      (an event stamped in the future counts as just happened). */
  lemma RecentMotionIsAge(micros: int)
    ensures RecentMotion(Elapsed(micros)) <==> micros < 60 * MicrosPerSecond
  {
  }

  /** Within a day of the event the heuristic as written and the corrected
      one agree; they part only where the days component is not zero. */
  lemma RecentMotionAgreesWithinADay(micros: int)
    requires 0 <= micros < MicrosPerDay
    ensures MotionDetected(Elapsed(micros)) == RecentMotion(Elapsed(micros))
  {
  }

  /** A measurement sensor: the latest reading of one key of a device. */
  class NatureSensor {
    const id: string
    const key: string
    const name: string
    const unit: Unit
    const deviceClass: SensorDeviceClass
    const deviceId: string
    var nativeValue: real
    var available: bool

    /** This sensor is the measurement sensor for `key` of `device`, showing
        its latest reading. */
    predicate Describes(device: Device, key: string)
      reads this
    {
      && Identifies(device, key)
      && nativeValue == Lookup(device.newestEvents, key).value.val
      && available
    }

    /** The fixed part of `Describes`: which device and key this sensor is
        for, and the id, name, unit and class derived from them. */
    predicate Identifies(device: Device, key: string)
    {
      && key in SensorUnits
      && Lookup(device.newestEvents, key).Some?
      && this.key == key && deviceId == device.id
      && id == SensorId(device.id, key)
      && name == SensorName(device.name, key)
      && unit == SensorUnits[key] && deviceClass == SensorClasses[key]
    }

    constructor (device: Device, key: string)
      requires key in SensorUnits && Lookup(device.newestEvents, key).Some?
      ensures Describes(device, key)
    {
      MeasurementTablesExcludeMotion();
      this.key := key;
      id := SensorId(device.id, key);
      name := SensorName(device.name, key);
      nativeValue := Lookup(device.newestEvents, key).value.val;
      unit := SensorUnits[key];
      deviceClass := SensorClasses[key];
      available := true;
      deviceId := device.id;
    }

    /** `_handle_coordinator_update`: take this key's latest reading from the
        refreshed devices; a missing device or key raises `KeyError` and
        leaves the sensor as it was. */
    method HandleCoordinatorUpdate(devices: map<string, Device>) returns (err: Option<Error>)
      modifies this
      ensures deviceId !in devices ==> err == Some(KeyError(deviceId))
      ensures deviceId in devices && Lookup(devices[deviceId].newestEvents, key).None? ==>
        err == Some(KeyError(key))
      ensures err.Some? ==> nativeValue == old(nativeValue) && available == old(available)
      ensures err.None? <==> deviceId in devices && Lookup(devices[deviceId].newestEvents, key).Some?
      ensures err.None? ==>
        nativeValue == Lookup(devices[deviceId].newestEvents, key).value.val && available
    {
      if deviceId !in devices {
        return Some(KeyError(deviceId));
      }
      var event := Lookup(devices[deviceId].newestEvents, key);
      if event.None? {
        return Some(KeyError(key));
      }
      nativeValue := event.value.val;
      available := true;
      return None;
    }
  }

  /** The motion binary sensor: on while the last motion event is recent. */
  class NatureMotionSensor {
    const id: string
    const key: string
    const name: string
    const deviceId: string
    var lastUpdate: int
    var available: bool

    /** This sensor is the motion sensor of `device`, holding the instant of
        its latest motion event. */
    predicate Describes(device: Device)
      reads this
    {
      && Lookup(device.newestEvents, MotionKey).Some?
      && key == MotionKey && deviceId == device.id
      && id == SensorId(device.id, MotionKey)
      && name == SensorName(device.name, MotionKey)
      && lastUpdate == Lookup(device.newestEvents, MotionKey).value.createdAt
      && available
    }

    constructor (device: Device)
      requires Lookup(device.newestEvents, MotionKey).Some?
      ensures Describes(device)
    {
      key := MotionKey;
      id := SensorId(device.id, MotionKey);
      name := SensorName(device.name, MotionKey);
      lastUpdate := Lookup(device.newestEvents, MotionKey).value.createdAt;
      available := true;
      deviceId := device.id;
    }

    /** `is_on` at the instant `now`: the time since the last event, taken
        modulo whole days, is under a minute. */
    function IsOn(now: int): (on: bool)
      reads this
      ensures on <==> (now - lastUpdate) % MicrosPerDay < 60 * MicrosPerSecond
      ensures 0 <= now - lastUpdate < MicrosPerDay ==> (on <==> RecentMotion(Elapsed(now - lastUpdate)))
    {
      MotionDetected(Elapsed(now - lastUpdate))
    }

    /** `_handle_coordinator_update`: take the instant of the latest motion
        event from the refreshed devices; a missing device or key raises
        `KeyError` and leaves the sensor as it was. */
    method HandleCoordinatorUpdate(devices: map<string, Device>) returns (err: Option<Error>)
      modifies this
      ensures deviceId !in devices ==> err == Some(KeyError(deviceId))
      ensures deviceId in devices && Lookup(devices[deviceId].newestEvents, key).None? ==>
        err == Some(KeyError(key))
      ensures err.Some? ==> lastUpdate == old(lastUpdate) && available == old(available)
      ensures err.None? <==> deviceId in devices && Lookup(devices[deviceId].newestEvents, key).Some?
      ensures err.None? ==>
        lastUpdate == Lookup(devices[deviceId].newestEvents, key).value.createdAt && available
    {
      if deviceId !in devices {
        return Some(KeyError(deviceId));
      }
      var event := Lookup(devices[deviceId].newestEvents, key);
      if event.None? {
        return Some(KeyError(key));
      }
      lastUpdate := event.value.createdAt;
      available := true;
      return None;
    }
  }

  /** An entity handed to the host: a measurement or a motion sensor. */
  datatype SensorEntity = Measurement(sensor: NatureSensor) | Motion(motion: NatureMotionSensor)

  /** The loop of `async_setup_entry`: a measurement sensor for every key of
      `newest_events` except motion, in order. A key without a unit raises
      `KeyError`. */
  method MeasurementSensors(device: Device) returns (r: Result<seq<NatureSensor>>)
    ensures r.Err? <==> exists k :: k in MeasurementKeys(device.newestEvents) && k !in SensorUnits
    ensures r.Err? ==>
      && r.error.KeyError?
      && r.error.key in MeasurementKeys(device.newestEvents) && r.error.key !in SensorUnits
    ensures r.Err? ==>
      exists i ::
        && 0 <= i < |MeasurementKeys(device.newestEvents)|
        && r.error.key == MeasurementKeys(device.newestEvents)[i]
        && forall j :: 0 <= j < i ==> MeasurementKeys(device.newestEvents)[j] in SensorUnits
    ensures r.Ok? ==> |r.value| == |MeasurementKeys(device.newestEvents)|
    ensures r.Ok? ==> forall j :: 0 <= j < |r.value| ==>
      r.value[j].Describes(device, MeasurementKeys(device.newestEvents)[j])
  {
    var keys := MeasurementKeys(device.newestEvents);
    var sensors: seq<NatureSensor> := [];
    for i := 0 to |keys|
      invariant |sensors| == i
      invariant forall j :: 0 <= j < i ==> sensors[j].Describes(device, keys[j])
    {
      var key := keys[i];
      if key !in SensorUnits {
        assert forall j :: 0 <= j < i ==> keys[j] in SensorUnits by {
          forall j | 0 <= j < i ensures keys[j] in SensorUnits {
            assert sensors[j].Describes(device, keys[j]);
          }
        }
        return Err(KeyError(key));
      }
      ghost var before := sensors;
      var sensor := new NatureSensor(device, key);
      sensors := sensors + [sensor];
      forall j | 0 <= j < i + 1 ensures sensors[j].Describes(device, keys[j]) {
        if j < i {
          assert sensors[j] == before[j];
        }
      }
    }
    return Ok(sensors);
  }

  /** `async_setup_entry`: the measurement sensors in the order of
      `newest_events`, then the motion sensor when the device reports motion.
      A key without a unit raises `KeyError`, and then no entity is added. */
  method SetupEntry(device: Device) returns (r: Result<seq<SensorEntity>>)
    ensures r.Err? <==> exists k :: k in MeasurementKeys(device.newestEvents) && k !in SensorUnits
    ensures r.Err? ==>
      && r.error.KeyError?
      && r.error.key in MeasurementKeys(device.newestEvents) && r.error.key !in SensorUnits
    ensures r.Err? ==>
      exists i ::
        && 0 <= i < |MeasurementKeys(device.newestEvents)|
        && r.error.key == MeasurementKeys(device.newestEvents)[i]
        && forall j :: 0 <= j < i ==> MeasurementKeys(device.newestEvents)[j] in SensorUnits
    ensures r.Ok? ==>
      |r.value| == |MeasurementKeys(device.newestEvents)| + (if MotionKey in Keys(device.newestEvents) then 1 else 0)
    ensures r.Ok? ==> forall j :: 0 <= j < |MeasurementKeys(device.newestEvents)| ==>
      r.value[j].Measurement? && r.value[j].sensor.Describes(device, MeasurementKeys(device.newestEvents)[j])
    ensures r.Ok? && MotionKey in Keys(device.newestEvents) ==>
      var last := r.value[|r.value| - 1];
      last.Motion? && last.motion.Describes(device)
  {
    var measurements := MeasurementSensors(device);
    if measurements.Err? {
      return Err(measurements.error);
    }
    var sensors := seq(|measurements.value|, j requires 0 <= j < |measurements.value| =>
      Measurement(measurements.value[j]));
    if MotionKey in Keys(device.newestEvents) {
      var motion := new NatureMotionSensor(device);
      sensors := sensors + [Motion(motion)];
    }
    return Ok(sensors);
  }
}
