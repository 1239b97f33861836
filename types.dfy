/** Values shared by the climate and sensor models: optional values, the two
    Python exceptions the entities can raise, the vendor's device records and
    the JSON values that appear in command payloads. */
module Types {

  datatype Option<+T> = None | Some(value: T)

  /** The exceptions raised by the entity code: a dictionary lookup of a
      missing key, and `float(...)` of text that is not a number. */
  datatype Error = KeyError(key: string) | ValueError(text: string)

  datatype Result<+T> = Ok(value: T) | Err(error: Error)

  /** One sensor event of a device: its numeric reading `val` and the
      instant `created_at`, in microseconds since the epoch. */
  datatype Event = Event(val: real, createdAt: int)

  /** A vendor device (the hub): its id, its name and its latest event per
      sensor key, in the order the cloud lists them. */
  datatype Device = Device(id: string, name: string, newestEvents: seq<(string, Event)>)

  /** A JSON value as sent to the cloud: payload fields are either text or an
      integer literal. */
  datatype JsonValue = Text(s: string) | Integer(i: int)

  /** A JSON object posted to the cloud, keyed by field name. */
  type Payload = map<string, JsonValue>
}
