/** The records the template parser builds and the parser's state. */
module Devices {
  import opened Wrappers
  import opened JsString
  import JsObject

  /**
   * A device's discovery message: the payload text after substitution, which
   * the source then decodes as JSON twice, and the `state_topic` it forces
   * into the decoded object (`None` where the source would write `undefined`).
   */
  datatype Discovery = Discovery(payload: String, stateTopic: Option<String>)

  /**
   * One sensor of the template. `topic` and `config` stay `None` until a
   * publish line is seen while the device is in progress.
   */
  datatype Device = Device(name: String, variables: JsObject.Object, topic: Option<String>, config: Option<Discovery>)

  /**
   * The module-level parser state: the device in progress (`device`, null
   * until the first accepted `value` line) and the finished devices
   * (`devices`, append-only).
   */
  datatype Parse = Parse(device: Option<Device>, devices: seq<Device>) {
    /** The variables of the device in progress form a well-formed object. */
    ghost predicate Valid() {
      device.Some? ==> JsObject.Valid(device.value.variables)
    }
  }

  const Start := Parse(None, [])
}
