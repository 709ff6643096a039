/**
 * Input-device selection (main.py lines 32-44): the first enumerated device
 * whose lower-cased name contains the lower-cased keyword and which has at
 * least one input channel, or none, in which case the stream is opened on
 * the default input.
 */
module Devices {
  import opened Wrappers
  import opened PyStr

  /** The two fields of PyAudio's device-info record that the search reads. */
  datatype DeviceInfo = DeviceInfo(name: string, maxInputChannels: int)

  /** The keyword that identifies the preferred interface. */
  const FocusriteKeyword: string := "Focusrite"

  /** The test applied to each device: a name match ignoring case, and some input channel. */
  predicate IsMatch(d: DeviceInfo, keyword: string)
  {
    Contains(Lower(d.name), Lower(keyword)) && d.maxInputChannels > 0
  }

  /**
   * Scans the devices in index order and returns the first match. The result is
   * the smallest matching index, and it is `None` exactly when no device matches.
   */
  method DetectDevice(devices: seq<DeviceInfo>, keyword: string) returns (r: Option<nat>)
    ensures r.Some? ==> r.value < |devices| && IsMatch(devices[r.value], keyword)
    ensures r.Some? ==> forall j :: 0 <= j < r.value ==> !IsMatch(devices[j], keyword)
    ensures r.None? <==> forall j :: 0 <= j < |devices| ==> !IsMatch(devices[j], keyword)
  {
    var needle := Lower(keyword);
    var i := 0;
    while i < |devices|
      invariant 0 <= i <= |devices|
      invariant forall j :: 0 <= j < i ==> !IsMatch(devices[j], keyword)
    {
      var info := devices[i];
      if Contains(Lower(info.name), needle) && info.maxInputChannels > 0 {
        return Some(i);
      }
      i := i + 1;
    }
    return None;
  }
}
