/** Properties that relate several reads of one device, or reads of devices
    that differ only in their buffers or health. */
module DeviceProperties {
  import opened DeviceTypes
  import opened Devices

  /** Each `...Previous` getter is its current-frame partner applied to the
      previous buffer: the two differ only in which buffer they read. */
  lemma PreviousReadsPreviousBuffer(d: InputDevice, id: DeviceButtonId)
    requires IsAvailable(d) ==> d.isValidButtonId(id) && id in d.previousState
    ensures GetBoolPrevious(d, id) == GetBool(d.(state := d.previousState), id)
    ensures GetFloatPrevious(d, id) == GetFloat(d.(state := d.previousState), id)
  {
  }

  /** The current-frame getters never look at the previous buffer. */
  lemma CurrentIgnoresPreviousBuffer(d: InputDevice, p: InputState, id: DeviceButtonId)
    requires IsAvailable(d) ==> d.isValidButtonId(id) && id in d.state
    ensures GetBool(d.(previousState := p), id) == GetBool(d, id)
    ensures GetFloat(d.(previousState := p), id) == GetFloat(d, id)
  {
  }

  /** The previous-frame getters never look at the current buffer. */
  lemma PreviousIgnoresCurrentBuffer(d: InputDevice, s: InputState, id: DeviceButtonId)
    requires IsAvailable(d) ==> d.isValidButtonId(id) && id in d.previousState
    ensures GetBoolPrevious(d.(state := s), id) == GetBoolPrevious(d, id)
    ensures GetFloatPrevious(d.(state := s), id) == GetFloatPrevious(d, id)
  {
  }

  /** On an unavailable device all four getters give the neutral value for
      every button id, valid or not, whatever the two buffers hold. */
  lemma UnavailableMasksEveryRead(d: InputDevice, s: InputState, p: InputState, id: DeviceButtonId)
    requires d.deviceState == DS_UNAVAILABLE
    ensures var e := d.(state := s, previousState := p);
      && !GetBool(e, id) && !GetBoolPrevious(e, id)
      && GetFloat(e, id) == 0.0 && GetFloatPrevious(e, id) == 0.0
  {
  }

  /** On an available device the current getters agree with the current
      buffer for every valid button, so two available devices with the same
      current buffer read the same, whatever their health or previous buffer. */
  lemma AvailableReadsAgreeOnBuffer(d: InputDevice, e: InputDevice, id: DeviceButtonId)
    requires IsAvailable(d) && IsAvailable(e)
    requires d.isValidButtonId(id) && e.isValidButtonId(id)
    requires id in d.state && id in e.state && d.state[id] == e.state[id]
    ensures GetBool(d, id) == GetBool(e, id)
    ensures GetFloat(d, id) == GetFloat(e, id)
  {
  }

  /** Identity and button layout are fixed: replacing the buffers or the
      device's health leaves the id, the index and the type of every valid
      button as they were. This is the record-level form of those accessors
      being `const` queries of fields set once at construction. */
  lemma IdentityIgnoresFrameState(d: InputDevice, s: InputState, p: InputState, h: DeviceState, id: DeviceButtonId)
    requires d.isValidButtonId(id)
    ensures var e := d.(state := s, previousState := p, deviceState := h);
      && GetDeviceId(e) == GetDeviceId(d)
      && GetIndex(e) == GetIndex(d)
      && GetButtonType(e, id) == GetButtonType(d, id)
  {
  }
}
