/** The bounded scan a concrete device uses to answer "which buttons are down".

    The scan covers the button ids from `start` to `end`, both included, and
    reports each one that is valid for the device and currently down, in
    increasing order, until the range is exhausted or the caller's array is
    full. `DownFrom` is the reference answer with no cap; the method writes
    its longest prefix that fits.
 */
module ButtonScan {
  import opened DeviceTypes
  import opened Devices

  /** Whether `id` is a button of the device that `GetBool` reports down. */
  predicate IsDown(d: InputDevice, id: DeviceButtonId)
    requires ReadsCurrent(d)
  {
    d.isValidButtonId(id) && GetBool(d, id)
  }

  /** The valid ids in `[i, end]` whose button is down, in increasing order. */
  function DownFrom(d: InputDevice, i: nat, end: DeviceButtonId): seq<DeviceButtonId>
    requires ReadsCurrent(d)
    decreases end - i + 1
  {
    if i > end then []
    else
      var rest := DownFrom(d, i + 1, end);
      if IsDown(d, i) then [i as DeviceButtonId] + rest else rest
  }

  /** Every reported id lies in the range, is valid, is down, and the ids increase strictly. */
  lemma {:induction false} DownFromSound(d: InputDevice, i: nat, end: DeviceButtonId)
    requires ReadsCurrent(d)
    ensures forall k :: 0 <= k < |DownFrom(d, i, end)| ==>
      var id := DownFrom(d, i, end)[k];
      i <= id <= end && IsDown(d, id)
    ensures forall k, l :: 0 <= k < l < |DownFrom(d, i, end)| ==>
      DownFrom(d, i, end)[k] < DownFrom(d, i, end)[l]
    decreases end - i + 1
  {
    if i <= end {
      DownFromSound(d, i + 1, end);
    }
  }

  /** Every valid id in the range whose button is down is reported. */
  lemma {:induction false} DownFromComplete(d: InputDevice, i: nat, end: DeviceButtonId, id: DeviceButtonId)
    requires ReadsCurrent(d)
    requires i <= id <= end && IsDown(d, id)
    ensures id in DownFrom(d, i, end)
    decreases end - i + 1
  {
    if id > i {
      DownFromComplete(d, i + 1, end, id);
    }
  }

  /** An unavailable device has no button down anywhere, whatever its buffers hold. */
  lemma {:induction false} UnavailableNothingDown(d: InputDevice, i: nat, end: DeviceButtonId)
    requires d.deviceState == DS_UNAVAILABLE
    ensures DownFrom(d, i, end) == []
    decreases end - i + 1
  {
    if i <= end {
      UnavailableNothingDown(d, i + 1, end);
    }
  }

  /** A list of reports that spells out the whole uncapped answer names every
      valid id in the range whose button is down. */
  lemma ReportsAllDown(d: InputDevice, start: DeviceButtonId, end: DeviceButtonId, reports: seq<DeviceButtonSpec>)
    requires ReadsCurrent(d)
    requires |reports| == |DownFrom(d, start, end)|
    requires forall k :: 0 <= k < |reports| ==> reports[k] == DeviceButtonSpec(d.deviceId, DownFrom(d, start, end)[k])
    ensures forall id: DeviceButtonId :: start <= id <= end && IsDown(d, id) ==>
      DeviceButtonSpec(d.deviceId, id) in reports
  {
    var all := DownFrom(d, start, end);
    forall id: DeviceButtonId | start <= id <= end && IsDown(d, id)
      ensures DeviceButtonSpec(d.deviceId, id) in reports
    {
      DownFromComplete(d, start, end, id);
      var k :| 0 <= k < |all| && all[k] == id;
      assert reports[k] == DeviceButtonSpec(d.deviceId, id);
    }
  }

  function Min(a: nat, b: nat): nat
  {
    if a <= b then a else b
  }

  /** `out` with its first `|ids|` fields replaced by the reports of `ids` on device `deviceId`. */
  function FillFront(out: seq<DeviceButtonSpec>, deviceId: DeviceId, ids: seq<DeviceButtonId>): (r: seq<DeviceButtonSpec>)
    requires |ids| <= |out|
    ensures |r| == |out|
    ensures forall k :: 0 <= k < |ids| ==> r[k] == DeviceButtonSpec(deviceId, ids[k])
    ensures r[|ids|..] == out[|ids|..]
  {
    seq(|out|, k requires 0 <= k < |out| => if k < |ids| then DeviceButtonSpec(deviceId, ids[k]) else out[k])
  }

  /** Reporting one more id writes exactly the next field. */
  lemma FillFrontExtend(out: seq<DeviceButtonSpec>, deviceId: DeviceId, ids: seq<DeviceButtonId>, id: DeviceButtonId)
    requires |ids| < |out|
    ensures FillFront(out, deviceId, ids + [id])
         == FillFront(out, deviceId, ids)[|ids| := DeviceButtonSpec(deviceId, id)]
  {
  }

  /** What the scan writes once it has reported `found`, the longest prefix of
      the uncapped answer that fits in `maxButtonCount` fields. */
  lemma ScanAnswer(d: InputDevice, outButtons: seq<DeviceButtonSpec>, maxButtonCount: nat,
                   start: DeviceButtonId, end: DeviceButtonId, found: seq<DeviceButtonId>,
                   count: nat, written: seq<DeviceButtonSpec>)
    requires ReadsCurrent(d)
    requires maxButtonCount <= |outButtons|
    requires count == |found| == Min(maxButtonCount, |DownFrom(d, start, end)|)
    requires found == DownFrom(d, start, end)[..count]
    requires written == FillFront(outButtons, d.deviceId, found)
    ensures BoundedWrite(outButtons, maxButtonCount, Written(count, written))
    ensures forall k :: 0 <= k < count ==> written[k] == DeviceButtonSpec(d.deviceId, DownFrom(d, start, end)[k])
    ensures forall k :: 0 <= k < count ==>
      start <= written[k].buttonId <= end && IsDown(d, written[k].buttonId)
    ensures count < maxButtonCount ==>
      forall id: DeviceButtonId :: start <= id <= end && IsDown(d, id) ==>
        DeviceButtonSpec(d.deviceId, id) in written[..count]
  {
    var all := DownFrom(d, start, end);
    DownFromSound(d, start, end);
    assert forall k :: 0 <= k < count ==> written[k] == DeviceButtonSpec(d.deviceId, all[k]);
    if count < maxButtonCount {
      assert found == all;
      ReportsAllDown(d, start, end, written[..count]);
    }
  }

  /** Writes into the front of `outButtons` the buttons of `[start, end]` that
      are valid and down, at most `maxButtonCount` of them, and returns how
      many it wrote together with the array's new contents. */
  method CheckAllButtonsDown(d: InputDevice, outButtons: seq<DeviceButtonSpec>, maxButtonCount: nat,
                             start: DeviceButtonId, end: DeviceButtonId)
    returns (count: nat, written: seq<DeviceButtonSpec>)
    requires ReadsCurrent(d)
    requires maxButtonCount <= |outButtons|
    ensures BoundedWrite(outButtons, maxButtonCount, Written(count, written))
    ensures count == Min(maxButtonCount, |DownFrom(d, start, end)|)
    ensures forall k :: 0 <= k < count ==> written[k] == DeviceButtonSpec(d.deviceId, DownFrom(d, start, end)[k])
    ensures forall k :: 0 <= k < count ==>
      start <= written[k].buttonId <= end && IsDown(d, written[k].buttonId)
    ensures count < maxButtonCount ==>
      forall id: DeviceButtonId :: start <= id <= end && IsDown(d, id) ==>
        DeviceButtonSpec(d.deviceId, id) in written[..count]
  {
    count := 0;
    written := outButtons;
    var i: nat := start;
    ghost var found: seq<DeviceButtonId> := [];
    while i <= end && count < maxButtonCount
      invariant start <= i
      invariant found + DownFrom(d, i, end) == DownFrom(d, start, end)
      invariant count == |found| <= maxButtonCount
      invariant written == FillFront(outButtons, d.deviceId, found)
      decreases end - i + 1
    {
      if IsDown(d, i) {
        FillFrontExtend(outButtons, d.deviceId, found, i);
        written := written[count := DeviceButtonSpec(d.deviceId, i)];
        found := found + [i];
        count := count + 1;
      }
      i := i + 1;
    }
    assert found == DownFrom(d, start, end)[..count];
    ScanAnswer(d, outButtons, maxButtonCount, start, end, found, count, written);
  }
}
