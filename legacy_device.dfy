/** The device of the older single-crate program (`src/gg.rs`): one HID
    interface, found by a first-match search. Its `create_report` and
    `prepare_for_report` are the ones of `Report`, token for token. */
module LegacyHid {
  import opened Common
  import opened Bitmaps
  import opened Report
  import Hid

  /** Arctis Nova Pro Wired and Wireless only. */
  const LEGACY_PRODUCTS: seq<nat> := [0x12cb, 0x12e0]

  predicate LegacyMatches(d: Hid.HidInfo) {
    d.vendor == Hid.STEELSERIES && d.product in LEGACY_PRODUCTS && d.iface == Hid.INTERFACE
  }

  /** `device_list().find(...)`: the index of the first matching entry. */
  function FindFirst(infos: seq<Hid.HidInfo>): (r: Option<nat>)
    ensures r.Some? ==> r.value < |infos| && LegacyMatches(infos[r.value])
                        && forall k :: 0 <= k < r.value ==> !LegacyMatches(infos[k])
    ensures r.None? ==> forall k :: 0 <= k < |infos| ==> !LegacyMatches(infos[k])
  {
    if infos == [] then None
    else if LegacyMatches(infos[0]) then Some(0)
    else match FindFirst(infos[1..])
         case None => None
         case Some(i) => Some(i + 1)
  }

  /** The older selection: the first match, which must open. */
  function LegacySelect(infos: seq<Hid.HidInfo>): Result<Hid.HidInfo> {
    match FindFirst(infos)
    case None => Err(Bail("Device not found"))
    case Some(i) => if infos[i].opens then Ok(infos[i]) else Err(Bail("Failed to open device"))
  }

  /** The first matching entry decides: it is the device if it opens, and
      otherwise the call fails without trying later matches; with no match at
      all the device is not found. */
  lemma LegacySelectChoice(infos: seq<Hid.HidInfo>, j: nat)
    requires j < |infos|
    ensures LegacyMatches(infos[j]) && (forall k :: 0 <= k < j ==> !LegacyMatches(infos[k]))
            ==> LegacySelect(infos) == if infos[j].opens then Ok(infos[j]) else Err(Bail("Failed to open device"))
    ensures LegacySelect(infos) == Err(Bail("Device not found")) <==> forall k :: 0 <= k < |infos| ==> !LegacyMatches(infos[k])
  {
    if LegacyMatches(infos[j]) && forall k :: 0 <= k < j ==> !LegacyMatches(infos[k]) {
      assert FindFirst(infos) == Some(j);
    }
    if LegacySelect(infos) == Err(Bail("Device not found")) {
      assert FindFirst(infos).None?;
    }
  }

  /** Every entry the older program accepts is also a match of the newer
      filter. */
  lemma LegacyMatchesNewer(d: Hid.HidInfo)
    ensures LegacyMatches(d) ==> Hid.Matches(d)
    ensures Hid.Matches(d) && d.product !in {0x12cd, 0x12e5} ==> LegacyMatches(d)
  {
  }

  class LegacyDevice {
    var dev: Hid.HidInfo
    var width: nat
    var height: nat

    ghost predicate Valid()
      reads this
    {
      width == Hid.SCREEN_WIDTH && height == Hid.SCREEN_HEIGHT
    }

    constructor (d: Hid.HidInfo)
      ensures Valid() && dev == d
    {
      dev := d;
      width, height := Hid.SCREEN_WIDTH, Hid.SCREEN_HEIGHT;
    }

    /** `Device::connect` of the older program. */
    static method Connect(infos: seq<Hid.HidInfo>) returns (r: Result<LegacyDevice>)
      ensures LegacySelect(infos).Err? ==> r == Err(LegacySelect(infos).error)
      ensures LegacySelect(infos).Ok? ==> r.Ok? && fresh(r.value) && r.value.Valid()
                                          && r.value.dev == LegacySelect(infos).value
    {
      var found := FindFirst(infos);
      if found.None? {
        return Err(Bail("Device not found"));
      }
      var info := infos[found.value];
      if !info.opens {
        return Err(Bail("Failed to open device"));
      }
      var d := new LegacyDevice(info);
      r := Ok(d);
    }

    /** `draw`: the same chunked sends as the newer library. */
    method Draw(bitmap: Raster, x: int, y: int, sendOk: seq<bool>) returns (sent: seq<seq<byte>>, res: Outcome)
      requires Valid() && bitmap.Valid() && OffsetFits(x, bitmap.w) && OffsetFits(y, bitmap.h)
      ensures var rs := DrawReports(bitmap, x, y, width, height);
              var k := FirstFailure(sendOk, |rs|);
              && sent == rs[..Min(k + 1, |rs|)]
              && (res == Pass <==> k == |rs|)
              && (res != Pass ==> res == Fail(IoError))
    {
      sent, res := SendReports(bitmap, x, y, width, height, sendOk);
    }
  }
}
