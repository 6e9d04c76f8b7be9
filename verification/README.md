# gainput InputDevice: the read side, as a pure model

This project models the read side of gainput's `InputDevice` interface
(`lib/include/gainput/GainputInputDevice.h`). It covers the four typed
getters, availability, the identity accessors, the default answers of the
optional capabilities, and the bounded "which buttons are down" scan.

A device is an immutable record (`Devices.InputDevice`). It holds:

- the manager-assigned `DeviceId`, the per-type index and the `DeviceType`;
- `deviceState`, the `DeviceState` the concrete device reports right now
  (`DS_OK`, `DS_LOW_BATTERY` or `DS_UNAVAILABLE`);
- the concrete device's `IsValidButtonId` and `GetButtonType`, as total
  functions;
- the two owned buffers, `state` (current) and `previousState` (previous).

Each buffer is a map from `DeviceButtonId` to one slot, and each slot can be
read as a bool or as a float. Floats are only stored and compared with `0.0`,
so they are modelled as `real`. On an available device each getter reads one
buffer, and it asks only that this buffer hold a slot for the id it reads. An
unavailable device answers the neutral value and asks nothing of its buffers.

Modules:

- `DeviceTypes` holds the ids, the enumerations, the buffer slot and
  `DeviceButtonSpec`.
- `Devices` holds the device record, its getters and the default virtuals.
  It also holds the contracts that any override of an optional capability
  must keep: `BoundedWrite`, `NameWrite` and `ByNameAnswer`.
- `ButtonScan` holds `CheckAllButtonsDown` and `DownFrom`. `DownFrom` is its
  uncapped reference answer.
- `DeviceProperties` holds lemmas that relate different reads, and reads of
  devices that differ only in their buffers or health.

## Model

| member | source | states |
|---|---|---|
| Devices.IsAvailable | lib/include/gainput/GainputInputDevice.h:86 | A device is available exactly when its state is not `DS_UNAVAILABLE`, so `DS_OK` and `DS_LOW_BATTERY` are available and `DS_UNAVAILABLE` is not |
| Devices.GetBool | lib/include/gainput/GainputInputDevice.h:180-191 | When unavailable, the result is `false` for any id and any buffers. When available, the id must be valid and have a slot in the current buffer, and the result is the bool stored there |
| Devices.GetBoolPrevious | lib/include/gainput/GainputInputDevice.h:193-204 | When unavailable, the result is `false` for any id and any buffers. When available, the id must be valid and have a slot in the previous buffer, and the result is the bool stored there; the current buffer plays no part |
| Devices.GetFloat | lib/include/gainput/GainputInputDevice.h:206-217 | When unavailable, the result is `0.0` for any id and any buffers. When available, the id must be valid and have a slot in the current buffer, and the result is the float stored there |
| Devices.GetFloatPrevious | lib/include/gainput/GainputInputDevice.h:219-230 | When unavailable, the result is `0.0` for any id and any buffers. When available, the id must be valid and have a slot in the previous buffer, and the result is the float stored there; the current buffer plays no part |
| Devices.GetDeviceId | lib/include/gainput/GainputInputDevice.h:73 | Returns the id the device was given when it was created |
| Devices.GetIndex | lib/include/gainput/GainputInputDevice.h:75 | Returns the per-type index the device was given when it was created |
| Devices.GetButtonType | lib/include/gainput/GainputInputDevice.h:117 | For a valid id, returns the type the concrete device declares for that button |
| Devices.IsLateUpdate | lib/include/gainput/GainputInputDevice.h:82 | By default a device is not a late-update device |
| Devices.GetAnyButtonDown | lib/include/gainput/GainputInputDevice.h:100-106 | By default it reports 0 buttons and leaves the caller's array untouched. This meets the bulk-query contract: at most `maxButtonCount` entries are written, all at the front |
| Devices.GetButtonName | lib/include/gainput/GainputInputDevice.h:108-115 | By default it writes 0 bytes and leaves the buffer untouched. This meets the naming contract: at most `bufferLength` bytes, NUL-terminated when any are written |
| Devices.GetButtonByName | lib/include/gainput/GainputInputDevice.h:119-124 | By default it answers `InvalidDeviceButtonId`. This meets the reverse-lookup contract: the answer is the sentinel or a valid id |
| ButtonScan.CheckAllButtonsDown | lib/include/gainput/GainputInputDevice.h:167-176 | The count is at most `maxButtonCount` and equals min(`maxButtonCount`, number of down buttons in `[start, end]`). Entries are written only at the front of the array; every reported id lies in `[start, end]`, is valid and is down; when the array is not full, every down button in the range is reported |
| ButtonScan.DownFromSound | lib/include/gainput/GainputInputDevice.h:167-176 | Every id in the uncapped answer lies in the range, is valid and is down, and the ids strictly increase, so none is reported twice |
| ButtonScan.DownFromComplete | lib/include/gainput/GainputInputDevice.h:167-176 | Every valid id in the range whose button is down appears in the uncapped answer |
| ButtonScan.UnavailableNothingDown | lib/include/gainput/GainputInputDevice.h:180-187 | An unavailable device has no button down in any range, so the scan reports nothing, whatever the buffers hold, even buffers with no slot at all |
| DeviceProperties.PreviousReadsPreviousBuffer | lib/include/gainput/GainputInputDevice.h:180-230 | `GetBoolPrevious` and `GetFloatPrevious` equal `GetBool` and `GetFloat` on the same device with the previous buffer put in place of the current one: each pair differs only in the buffer it reads |
| DeviceProperties.CurrentIgnoresPreviousBuffer | lib/include/gainput/GainputInputDevice.h:180-217 | Replacing the previous buffer by any buffer does not change what `GetBool` or `GetFloat` return |
| DeviceProperties.PreviousIgnoresCurrentBuffer | lib/include/gainput/GainputInputDevice.h:193-230 | Replacing the current buffer by any buffer does not change what `GetBoolPrevious` or `GetFloatPrevious` return |
| DeviceProperties.UnavailableMasksEveryRead | lib/include/gainput/GainputInputDevice.h:180-230 | On an unavailable device, with any buffers (even empty ones), the four getters give `false`, `false`, `0.0`, `0.0` for every id, valid or not |
| DeviceProperties.AvailableReadsAgreeOnBuffer | lib/include/gainput/GainputInputDevice.h:180-217 | Two available devices whose current buffers agree on a valid button read the same bool and float for it. Health beyond availability does not matter, and neither does the previous buffer |
| DeviceProperties.IdentityIgnoresFrameState | lib/include/gainput/GainputInputDevice.h:72-117 | Replacing the buffers or the health leaves unchanged the device id, the index and the type of every valid button: the record-level form of these being `const` reads of fields fixed at construction |

## Left out

- `Update` and `InternalUpdate` (lines 70, 159): only declared in the header; their bodies are in an implementation file that is not part of this model. So the copy-then-resample ordering, the double-buffer invariant across frames and the delta-notifier reporting are not modelled. The `InputDeltaState` sink is not represented at all.
- `GetState` (line 84) and `InternalGetState` (line 165): only declared. The record's `deviceState` field stands for the value they report at query time.
- The `CheckAllButtonsDown` body (line 176) is not in the header. The method's contract follows the doc comment, with `end` included in the range. Its loop is one implementation that meets that contract. It reports only ids for which `IsValidButtonId` holds, so that `GetBool` is only asked about valid ids.
- The constructor (line 61) and the `InputManager` back-reference (line 138): construction happens only through the manager, which is not part of this model, and neither is the late-update ordering across devices. A device record is built directly from its parts.
- `GetType` and `GetTypeName` (lines 78-80): pure virtual, with cosmetic strings. The record carries the type as `deviceType`.
- `GetInputState` and `GetPreviousInputState` (lines 127-129): they hand out mutable aliases. Here the buffers are values.
- The `synced_` flag and its accessors (lines 131-134, 151-153): these exist only in some build configurations.
- `InputState` internals: `InputState.h` is not part of this model. A buffer slot is modelled as readable both as a bool and as a float. The header reads either view for any valid id, and the buffer's layout is not visible here.
- `DeviceButtonId`, `DeviceId`, `InvalidDeviceButtonId` and `DeviceButtonSpec` are defined in `gainput.h`, which is not part of this model. The ids are modelled as 32-bit unsigned values. `InvalidDeviceButtonId` is taken to be the all-ones value. `DeviceButtonSpec` is taken to be the pair (device id, button id).
- `BT_COUNT` and `DT_COUNT` are counts, not values a button or device can have, so the enumerations leave them out.
- Float numerics and the nominal [-1, 1] / [0, 1] range of float buttons (line 13): no code performs arithmetic on the values or enforces the range.
- Overrides of the optional capabilities by concrete devices are not modelled. Only the defaults are. `BoundedWrite`, `NameWrite` and `ByNameAnswer` state what an override must keep.
- Devices.GetBool, Devices.GetBoolPrevious, Devices.GetFloat, Devices.GetFloatPrevious: on an available device, besides a valid id, each requires that the one buffer it reads hold a slot for that id. The header does not show how `InputState` is sized or indexed, so the model states the read's domain instead of assuming it.
- Only the base-class `IsAvailable`, `GetBool`, `GetBoolPrevious`, `GetFloat` and `GetFloatPrevious` are modelled. All five are `virtual` (lines 86, 92-98), and a concrete device may override them; such overrides, and what `CheckAllButtonsDown` would then see through `GetBool`, are not modelled.
- ButtonScan.CheckAllButtonsDown: on an available device it requires that the current buffer hold a slot for every valid id (`Devices.ReadsCurrent`), because the scan asks `GetBool` about each valid id in the range.
