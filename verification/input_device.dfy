/** The read side of the input-device contract.

    A device is an immutable record. What a concrete device kind supplies
    (its health, which button ids it has, and the type of each button) is
    carried by the record as plain values and total functions, so the
    operations below are pure functions of the record.
 */
module Devices {
  import opened DeviceTypes

  /** An input device as its getters see it.
      - `deviceState` is what the concrete device currently reports as its
        health (the result of its `InternalGetState`);
      - `isValidButtonId` and `buttonType` are the concrete device's answers
        to those two queries;
      - `state` is the current buffer, `previousState` the previous one. */
  datatype InputDevice = InputDevice(
    deviceId: DeviceId,
    index: uint32,
    deviceType: DeviceType,
    deviceState: DeviceState,
    isValidButtonId: DeviceButtonId -> bool,
    buttonType: DeviceButtonId -> ButtonType,
    state: InputState,
    previousState: InputState)

  /** Every read of the current buffer that `GetBool` or `GetFloat` may make
      finds a slot: when the device is available, each valid id has one.
      Nothing is asked of an unavailable device, whose reads never reach a buffer. */
  ghost predicate ReadsCurrent(d: InputDevice)
  {
    forall id: DeviceButtonId :: d.isValidButtonId(id) && IsAvailable(d) ==> id in d.state
  }

  /** The fixed id the manager assigned to the device. */
  function GetDeviceId(d: InputDevice): (r: DeviceId)
    ensures r == d.deviceId
  {
    d.deviceId
  }

  /** The device's index among devices of the same type. */
  function GetIndex(d: InputDevice): (r: uint32)
    ensures r == d.index
  {
    d.index
  }

  /** Whether reads see the buffers: the device is healthy or merely low on battery. */
  function IsAvailable(d: InputDevice): (r: bool)
    ensures r <==> d.deviceState != DS_UNAVAILABLE
  {
    d.deviceState == DS_OK || d.deviceState == DS_LOW_BATTERY
  }

  /** The type of a valid button, as the concrete device declares it. */
  function GetButtonType(d: InputDevice, id: DeviceButtonId): (r: ButtonType)
    requires d.isValidButtonId(id)
    ensures r == d.buttonType(id)
  {
    d.buttonType(id)
  }

  // The four typed getters below are the base-class definitions. On an
  // unavailable device they answer the neutral value without reading a
  // buffer; otherwise the id must be valid and they read the one buffer
  // each names, which must hold a slot for it.

  /** Whether the button is down in the current frame. */
  function GetBool(d: InputDevice, id: DeviceButtonId): (r: bool)
    requires IsAvailable(d) ==> d.isValidButtonId(id) && id in d.state
    ensures d.deviceState == DS_UNAVAILABLE ==> r == NeutralBool
    ensures d.deviceState != DS_UNAVAILABLE ==> r == d.state[id].b
  {
    if !IsAvailable(d) then NeutralBool else d.state[id].b
  }

  /** Whether the button was down in the previous frame. */
  function GetBoolPrevious(d: InputDevice, id: DeviceButtonId): (r: bool)
    requires IsAvailable(d) ==> d.isValidButtonId(id) && id in d.previousState
    ensures d.deviceState == DS_UNAVAILABLE ==> r == NeutralBool
    ensures d.deviceState != DS_UNAVAILABLE ==> r == d.previousState[id].b
  {
    if !IsAvailable(d) then NeutralBool else d.previousState[id].b
  }

  /** The button's value in the current frame. */
  function GetFloat(d: InputDevice, id: DeviceButtonId): (r: real)
    requires IsAvailable(d) ==> d.isValidButtonId(id) && id in d.state
    ensures d.deviceState == DS_UNAVAILABLE ==> r == NeutralFloat
    ensures d.deviceState != DS_UNAVAILABLE ==> r == d.state[id].f
  {
    if !IsAvailable(d) then NeutralFloat else d.state[id].f
  }

  /** The button's value in the previous frame. */
  function GetFloatPrevious(d: InputDevice, id: DeviceButtonId): (r: real)
    requires IsAvailable(d) ==> d.isValidButtonId(id) && id in d.previousState
    ensures d.deviceState == DS_UNAVAILABLE ==> r == NeutralFloat
    ensures d.deviceState != DS_UNAVAILABLE ==> r == d.previousState[id].f
  {
    if !IsAvailable(d) then NeutralFloat else d.previousState[id].f
  }

  /** The result of a query that fills a caller-supplied array: the number of
      entries written and the array's contents afterwards. */
  datatype Written<T> = Written(count: nat, out: seq<T>)

  /** A bounded write into `before`, whose first `cap` fields the caller lent:
      at most `cap` entries are written, all of them at the front, and every
      field from `count` on keeps its old content. */
  ghost predicate BoundedWrite<T>(before: seq<T>, cap: nat, w: Written<T>)
  {
    && w.count <= cap
    && |w.out| == |before|
    && w.count <= |before|
    && w.out[w.count..] == before[w.count..]
  }

  /** What any `GetButtonName` promises: a bounded write whose last written
      byte, when anything was written, is the terminating NUL. */
  ghost predicate NameWrite(buffer: seq<char>, bufferLength: nat, w: Written<char>)
  {
    && BoundedWrite(buffer, bufferLength, w)
    && (w.count > 0 ==> w.out[w.count - 1] == '\0')
  }

  /** What any `GetButtonByName` promises: the sentinel, or a button of the device. */
  ghost predicate ByNameAnswer(d: InputDevice, r: DeviceButtonId)
  {
    r == InvalidDeviceButtonId || d.isValidButtonId(r)
  }

  /** Default: a device is updated with all the others, not after them. */
  function IsLateUpdate(d: InputDevice): (r: bool)
    ensures !r
  {
    false
  }

  /** Default bulk "which buttons are down" query: unsupported, reports none. */
  function GetAnyButtonDown(d: InputDevice, outButtons: seq<DeviceButtonSpec>, maxButtonCount: nat)
    : (r: Written<DeviceButtonSpec>)
    requires maxButtonCount <= |outButtons|
    ensures BoundedWrite(outButtons, maxButtonCount, r)
    ensures r.count == 0 && r.out == outButtons
  {
    Written(0, outButtons)
  }

  /** Default button naming: unsupported, writes nothing and reports zero bytes. */
  function GetButtonName(d: InputDevice, id: DeviceButtonId, buffer: seq<char>, bufferLength: nat)
    : (r: Written<char>)
    requires bufferLength <= |buffer|
    ensures NameWrite(buffer, bufferLength, r)
    ensures r.count == 0 && r.out == buffer
  {
    Written(0, buffer)
  }

  /** Default reverse lookup by name: unsupported, answers the invalid id. */
  function GetButtonByName(d: InputDevice, name: seq<char>): (r: DeviceButtonId)
    ensures ByNameAnswer(d, r)
    ensures r == InvalidDeviceButtonId
  {
    InvalidDeviceButtonId
  }
}
