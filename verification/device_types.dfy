/** Identifiers, enumerations and the state buffer shared by every input device.

    The identifier types are 32-bit unsigned integers. The per-button state
    buffer (`InputState`) belongs to a collaborator that is not part of this
    model; it is represented here as an immutable map from button id to one
    slot that can be read either as a boolean or as a floating-point value.
 */
module DeviceTypes {

  /** A 32-bit unsigned integer, the width of `unsigned` on the supported targets. */
  type uint32 = x: int | 0 <= x < 0x1_0000_0000

  /** Identifies one device; assigned by the owning manager. */
  type DeviceId = uint32

  /** Identifies one button or axis within a device. */
  type DeviceButtonId = uint32

  /** The reserved "no such button" id: -1 converted to unsigned. */
  const InvalidDeviceButtonId: DeviceButtonId := 0xFFFF_FFFF

  /** The value domain of one device button. */
  datatype ButtonType =
    | BT_BOOL   // down (true) or up (false)
    | BT_FLOAT  // a continuous value

  /** The kind of a device; fixed for the device's lifetime. */
  datatype DeviceType =
    | DT_MOUSE
    | DT_KEYBOARD
    | DT_PAD
    | DT_TOUCH
    | DT_REMOTE
    | DT_GESTURE
    | DT_CUSTOM

  /** The health of a device, as its concrete implementation reports it. */
  datatype DeviceState =
    | DS_OK
    | DS_LOW_BATTERY
    | DS_UNAVAILABLE

  /** One slot of a state buffer, read as a boolean (`b`) or as a float (`f`).
      Floats are only stored and compared with zero, so `real` stands in for them. */
  datatype Cell = Cell(b: bool, f: real)

  /** A state buffer: the slot of every button the device holds state for. */
  type InputState = map<DeviceButtonId, Cell>

  /** One entry of a bulk "which buttons are down" answer. */
  datatype DeviceButtonSpec = DeviceButtonSpec(deviceId: DeviceId, buttonId: DeviceButtonId)

  /** The neutral values a read on an unavailable device yields. */
  const NeutralBool: bool := false
  const NeutralFloat: real := 0.0
}
