/** The device layer of `ggoled_lib` (`ggoled_lib/src/lib.rs`): choosing the
    two HID interfaces of an Arctis Nova Pro base station, and the reports
    the library sends and reads over them.

    The HID library is an oracle: an enumeration entry carries whether
    opening it succeeds and what reading its report descriptor gives; a send
    or write is given its outcome; a read is given what it returns. */
module Hid {
  import opened Common
  import opened Bitmaps
  import opened Report

  const STEELSERIES: nat := 0x1038
  /** Arctis Nova Pro Wired, Wired (Xbox), Wireless, Wireless (Xbox). */
  const PRODUCTS: seq<nat> := [0x12cb, 0x12cd, 0x12e0, 0x12e5]
  const INTERFACE: int := 4
  const SCREEN_WIDTH: nat := 128
  const SCREEN_HEIGHT: nat := 64

  /** One entry of the HID enumeration, with what `open_device` and
      `get_report_descriptor` would give for it. */
  datatype HidInfo = HidInfo(vendor: nat, product: nat, iface: int, path: string,
                             opens: bool, descriptor: Option<seq<byte>>)

  /** The filter of `connect`. */
  predicate Matches(d: HidInfo) {
    d.vendor == STEELSERIES && d.product in PRODUCTS && d.iface == INTERFACE
  }

  /** `device_list().filter(...).collect()`: the matching entries in
      enumeration order. */
  function Filter(infos: seq<HidInfo>): (ms: seq<HidInfo>)
    ensures |ms| <= |infos|
  {
    if infos == [] then []
    else (if Matches(infos[0]) then [infos[0]] else []) + Filter(infos[1..])
  }

  /** The filter keeps exactly the matching entries. */
  lemma {:induction false} FilterExact(infos: seq<HidInfo>, d: HidInfo)
    ensures d in Filter(infos) <==> d in infos && Matches(d)
  {
    if infos != [] {
      FilterExact(infos[1..], d);
      assert infos == [infos[0]] + infos[1..];
    }
  }

  /** `Iterator::position`: the first descriptor whose byte 1 is `v`. */
  function Position(descs: seq<seq<byte>>, v: byte): (p: Option<nat>)
    requires forall k :: 0 <= k < |descs| ==> |descs[k]| >= 2
    ensures p.Some? ==> p.value < |descs| && descs[p.value][1] == v
                        && forall k :: 0 <= k < p.value ==> descs[k][1] != v
    ensures p.None? ==> forall k :: 0 <= k < |descs| ==> descs[k][1] != v
  {
    if descs == [] then None
    else if descs[0][1] == v then Some(0)
    else match Position(descs[1..], v)
         case None => None
         case Some(i) => Some(i + 1)
  }

  /** `Vec::swap_remove`: the last element takes the place of element `i`. */
  function SwapRemove<T>(s: seq<T>, i: nat): (r: seq<T>)
    requires i < |s|
    ensures |r| == |s| - 1
    ensures forall k :: 0 <= k < |r| ==> r[k] == if k == i then s[|s| - 1] else s[k]
  {
    s[i := s[|s| - 1]][..|s| - 1]
  }

  /** `swap_remove` takes out exactly element `i`. */
  lemma SwapRemovePermutes<T>(s: seq<T>, i: nat)
    requires i < |s|
    ensures multiset(s) == multiset(SwapRemove(s, i)) + multiset{s[i]}
  {
    var r := SwapRemove(s, i);
    if i == |s| - 1 {
      assert s == r + [s[i]];
    } else {
      var front, mid, last := s[..i], s[i + 1..|s| - 1], s[|s| - 1];
      assert s == front + [s[i]] + mid + [last];
      assert r == front + [last] + mid;
      MultisetMove(front, s[i], mid, last);
    }
  }

  lemma MultisetMove<T>(front: seq<T>, x: T, mid: seq<T>, y: T)
    ensures multiset(front + [x] + mid + [y]) == multiset(front + [y] + mid) + multiset{x}
  {
  }

  /** The two opened interfaces: the OLED screen and the event source. */
  datatype Pair = Pair(oled: HidInfo, info: HidInfo)

  /** `desc[1]` panics on a descriptor shorter than two bytes; `connect`
      indexes the descriptors of both matches only when it got that far. */
  predicate ConnectSafe(infos: seq<HidInfo>) {
    var ms := Filter(infos);
    |ms| == 2 && ms[0].path != ms[1].path && ms[0].opens && ms[1].opens
    && ms[0].descriptor.Some? && ms[1].descriptor.Some?
    ==> |ms[0].descriptor.value| >= 2 && |ms[1].descriptor.value| >= 2
  }

  /** The selection logic of `connect`: exactly two matches are needed; on a
      shared path the one interface serves both roles, otherwise the
      interface whose descriptor byte 1 is 0xc0 drives the screen and the
      remaining one must have 0x00 there. */
  function Select(infos: seq<HidInfo>): Result<Pair>
    requires ConnectSafe(infos)
  {
    var ms := Filter(infos);
    if |ms| == 0 then Err(Bail("No matching devices connected"))
    else if |ms| < 2 then Err(Bail("Too few matching devices connected"))
    else if |ms| > 2 then Err(Bail("Too many matching devices connected"))
    else if ms[0].path == ms[1].path then
      if ms[0].opens then Ok(Pair(ms[0], ms[0])) else Err(Bail("Failed to connect to USB device"))
    else if !(ms[0].opens && ms[1].opens) then Err(Bail("Failed to connect to USB device"))
    else if ms[0].descriptor.None? || ms[1].descriptor.None? then Err(Bail("Failed to get USB device HID reports"))
    else Roles([ms[0], ms[1]], [ms[0].descriptor.value, ms[1].descriptor.value])
  }

  /** The role assignment of `connect`: the interface whose descriptor byte 1
      is 0xc0 drives the screen; after it is swap-removed, the first
      remaining one with 0x00 there is the info interface. */
  function Roles(devices: seq<HidInfo>, reports: seq<seq<byte>>): Result<Pair>
    requires |devices| == |reports| && forall k :: 0 <= k < |reports| ==> |reports[k]| >= 2
  {
    match Position(reports, 0xc0)
    case None => Err(Bail("No OLED device found"))
    case Some(o) =>
      var reports', devices' := SwapRemove(reports, o), SwapRemove(devices, o);
      match Position(reports', 0x00)
      case None => Err(Bail("No info device found"))
      case Some(i) => Ok(Pair(devices[o], devices'[i]))
  }

  /** Roles of two interfaces when the first has byte 1 = 0xc0. */
  lemma RolesFirstOled(a: HidInfo, b: HidInfo, ra: seq<byte>, rb: seq<byte>)
    requires |ra| >= 2 && |rb| >= 2 && ra[1] == 0xc0
    ensures Roles([a, b], [ra, rb]) == if rb[1] == 0x00 then Ok(Pair(a, b)) else Err(Bail("No info device found"))
  {
    assert Position([ra, rb], 0xc0) == Some(0);
    assert SwapRemove([ra, rb], 0) == [rb];
    assert SwapRemove([a, b], 0) == [b];
    assert [rb][1..] == [];
  }

  /** Roles of two interfaces when only the second has byte 1 = 0xc0. */
  lemma RolesSecondOled(a: HidInfo, b: HidInfo, ra: seq<byte>, rb: seq<byte>)
    requires |ra| >= 2 && |rb| >= 2 && ra[1] != 0xc0 && rb[1] == 0xc0
    ensures Roles([a, b], [ra, rb]) == if ra[1] == 0x00 then Ok(Pair(b, a)) else Err(Bail("No info device found"))
  {
    assert [ra, rb][1..] == [rb];
    assert Position([ra, rb], 0xc0) == Some(1);
    assert SwapRemove([ra, rb], 1) == [ra];
    assert SwapRemove([a, b], 1) == [a];
    assert [ra][1..] == [];
  }

  /** Roles of two interfaces when neither has byte 1 = 0xc0. */
  lemma RolesNoOled(a: HidInfo, b: HidInfo, ra: seq<byte>, rb: seq<byte>)
    requires |ra| >= 2 && |rb| >= 2 && ra[1] != 0xc0 && rb[1] != 0xc0
    ensures Roles([a, b], [ra, rb]) == Err(Bail("No OLED device found"))
  {
    assert [ra, rb][1..] == [rb];
    assert [rb][1..] == [];
  }

  /** The count checks come first and name the problem. */
  lemma SelectCounts(infos: seq<HidInfo>)
    requires ConnectSafe(infos)
    ensures |Filter(infos)| == 0 ==> Select(infos) == Err(Bail("No matching devices connected"))
    ensures |Filter(infos)| == 1 ==> Select(infos) == Err(Bail("Too few matching devices connected"))
    ensures |Filter(infos)| > 2 ==> Select(infos) == Err(Bail("Too many matching devices connected"))
    ensures Select(infos).Ok? ==> |Filter(infos)| == 2
  {
  }

  /** Two matches on one path: that interface is opened for both roles. */
  lemma SelectSharedPath(infos: seq<HidInfo>)
    requires ConnectSafe(infos)
    requires var ms := Filter(infos); |ms| == 2 && ms[0].path == ms[1].path
    ensures var d := Filter(infos)[0];
            Select(infos) == if d.opens then Ok(Pair(d, d)) else Err(Bail("Failed to connect to USB device"))
  {
  }

  /** On separate paths the roles follow the descriptors: the result is a
      pair of the two matches whose screen interface has byte 1 = 0xc0 and
      whose info interface has byte 1 = 0x00, and exactly then is the result
      a success. */
  lemma SelectRoles(infos: seq<HidInfo>)
    requires ConnectSafe(infos)
    requires var ms := Filter(infos);
             |ms| == 2 && ms[0].path != ms[1].path && ms[0].opens && ms[1].opens
             && ms[0].descriptor.Some? && ms[1].descriptor.Some?
    ensures var ms := Filter(infos);
            var a, b := ms[0].descriptor.value[1], ms[1].descriptor.value[1];
            && (Select(infos).Ok? <==> (a == 0xc0 && b == 0x00) || (b == 0xc0 && a == 0x00))
            && (a == 0xc0 && b == 0x00 ==> Select(infos) == Ok(Pair(ms[0], ms[1])))
            && (b == 0xc0 && a == 0x00 ==> Select(infos) == Ok(Pair(ms[1], ms[0])))
            && (a != 0xc0 && b != 0xc0 ==> Select(infos) == Err(Bail("No OLED device found")))
  {
    var ms := Filter(infos);
    var ra, rb := ms[0].descriptor.value, ms[1].descriptor.value;
    if ra[1] == 0xc0 {
      RolesFirstOled(ms[0], ms[1], ra, rb);
    } else if rb[1] == 0xc0 {
      RolesSecondOled(ms[0], ms[1], ra, rb);
    } else {
      RolesNoOled(ms[0], ms[1], ra, rb);
    }
  }

  /** The order of the two matches in the enumeration does not matter when
      their paths differ. */
  lemma SelectOrderFree(infos: seq<HidInfo>, infos': seq<HidInfo>)
    requires ConnectSafe(infos) && ConnectSafe(infos')
    requires var ms := Filter(infos); |ms| == 2 && ms[0].path != ms[1].path
    requires Filter(infos') == [Filter(infos)[1], Filter(infos)[0]]
    ensures Select(infos) == Select(infos')
  {
    var ms := Filter(infos);
    if ms[0].opens && ms[1].opens && ms[0].descriptor.Some? && ms[1].descriptor.Some? {
      SelectRoles(infos);
      SelectRoles(infos');
    }
  }

  // ---------------------------------------------------------------------
  // Fixed reports

  /** A 64-byte output report: report id 0x06, a command, one argument byte,
      then zeros. */
  function OutputReport(command: byte, arg: byte): (r: seq<byte>)
    ensures |r| == 64 && r[0] == 0x06 && r[1] == command && r[2] == arg
    ensures forall k :: 3 <= k < 64 ==> r[k] == 0
  {
    [0x06, command, arg] + seq(61, _ => 0)
  }

  /** The range check of `set_brightness` and the report it writes. */
  function BrightnessReport(value: byte): (r: Result<seq<byte>>)
    ensures value < 0x01 <==> r == Err(Bail("brightness too low"))
    ensures value > 0x0a <==> r == Err(Bail("brightness too high"))
    ensures 0x01 <= value <= 0x0a <==> r == Ok(OutputReport(0x85, value))
  {
    if value < 0x01 then Err(Bail("brightness too low"))
    else if value > 0x0a then Err(Bail("brightness too high"))
    else Ok(OutputReport(0x85, value))
  }

  // ---------------------------------------------------------------------
  // Status events

  datatype DeviceEvent =
    | Volume(volume: byte)
    | Battery(headset: byte, charging: byte)
    | HeadsetConnection(connected: bool)

  /** `u8::saturating_sub`. */
  function SatSub(a: byte, b: byte): (r: byte)
    ensures r <= a && (b <= a ==> r == a - b) && (b > a ==> r == 0)
  {
    if b > a then 0 else a - b
  }

  /** `parse_event` on a 64-byte input report. */
  function ParseEvent(buf: seq<byte>): Option<DeviceEvent>
    requires |buf| == 64
  {
    if buf[0] != 7 then None
    else if buf[1] == 0x25 then Some(Volume(SatSub(0x38, buf[2])))
    else if buf[1] == 0xb5 then Some(HeadsetConnection(buf[4] == 8))
    else if buf[1] == 0xb7 then Some(Battery(buf[2], buf[3]))
    else None
  }

  /** A report is recognised exactly when byte 0 is 7 and byte 1 is one of
      the three event codes, and each code yields its own event kind with the
      value at its own offsets; a volume never exceeds 0x38. */
  lemma ParseEventCases(buf: seq<byte>)
    requires |buf| == 64
    ensures ParseEvent(buf).Some? <==> buf[0] == 7 && buf[1] in {0x25, 0xb5, 0xb7}
    ensures ParseEvent(buf).Some? ==> match ParseEvent(buf).value
              case Volume(v) => buf[1] == 0x25 && v <= 0x38 && (buf[2] <= 0x38 ==> v == 0x38 - buf[2]) && (buf[2] > 0x38 ==> v == 0)
              case HeadsetConnection(c) => buf[1] == 0xb5 && c == (buf[4] == 8)
              case Battery(h, c) => buf[1] == 0xb7 && h == buf[2] && c == buf[3]
  {
  }

  /** What one `read` into a fresh 64-byte buffer gives. */
  datatype HidRead = ReadFail | ReadBytes(bytes: seq<byte>)

  /** The buffer after a read of `bytes`: they fill the front of a zeroed
      64-byte buffer. */
  function Buffer(bytes: seq<byte>): (buf: seq<byte>)
    ensures |buf| == 64
  {
    if |bytes| >= 64 then bytes[..64] else bytes + seq(64 - |bytes|, _ => 0)
  }

  function Recognised(buf: seq<byte>): seq<DeviceEvent>
    requires |buf| == 64
  {
    match ParseEvent(buf)
    case None => []
    case Some(e) => [e]
  }

  function Prepend(es: seq<DeviceEvent>, r: Result<seq<DeviceEvent>>): Result<seq<DeviceEvent>> {
    match r
    case Ok(rest) => Ok(es + rest)
    case Err(e) => Err(e)
  }

  lemma PrependPrepend(es: seq<DeviceEvent>, fs: seq<DeviceEvent>, r: Result<seq<DeviceEvent>>)
    ensures Prepend(es, Prepend(fs, r)) == Prepend(es + fs, r)
  {
    if r.Ok? {
      assert es + (fs + r.value) == (es + fs) + r.value;
    }
  }

  lemma PrependNothing(r: Result<seq<DeviceEvent>>)
    ensures Prepend([], r) == r
  {
    if r.Ok? {
      assert [] + r.value == r.value;
    }
  }

  /** The events of a sequence of reads, as `get_events` collects them; a
      read past the end of `input` returns nothing. */
  function Events(input: seq<HidRead>): Result<seq<DeviceEvent>> {
    if input == [] then Ok([])
    else match input[0]
         case ReadFail => Err(IoError)
         case ReadBytes(bytes) =>
           if |bytes| == 0 then Ok([])
           else Prepend(Recognised(Buffer(bytes)), Events(input[1..]))
  }

  /** A read that returns data. */
  predicate Delivers(r: HidRead) {
    r.ReadBytes? && |r.bytes| > 0
  }

  /** Events keep read order: reads that all deliver data contribute their
      events before anything read after them. */
  lemma {:induction false} EventsAppend(a: seq<HidRead>, b: seq<HidRead>)
    requires forall k :: 0 <= k < |a| ==> Delivers(a[k])
    ensures Events(a).Ok? && Events(a + b) == Prepend(Events(a).value, Events(b))
  {
    if a == [] {
      assert a + b == b;
      if Events(b).Ok? {
        assert [] + Events(b).value == Events(b).value;
      }
    } else {
      EventsAppend(a[1..], b);
      assert (a + b)[1..] == a[1..] + b;
      PrependPrepend(Recognised(Buffer(a[0].bytes)), Events(a[1..]).value, Events(b));
    }
  }

  /** Nothing after the first zero-length read is looked at, and a failed
      read before it fails the call. */
  lemma EventsStop(a: seq<HidRead>, b: seq<HidRead>)
    requires forall k :: 0 <= k < |a| ==> Delivers(a[k])
    ensures Events(a + [ReadBytes([])] + b) == Events(a)
    ensures Events(a + [ReadFail] + b) == Err(IoError)
  {
    EventsAppend(a, [ReadBytes([])] + b);
    EventsAppend(a, [ReadFail] + b);
    assert a + [ReadBytes([])] + b == a + ([ReadBytes([])] + b);
    assert a + [ReadFail] + b == a + ([ReadFail] + b);
    EventsAppend(a, []);
    assert a + [] == a;
    assert Events(a).value + [] == Events(a).value;
  }

  // ---------------------------------------------------------------------
  // The device

  class Device {
    var oled: HidInfo
    var info: HidInfo
    var width: nat
    var height: nat

    ghost predicate Valid()
      reads this
    {
      width == SCREEN_WIDTH && height == SCREEN_HEIGHT
    }

    constructor (p: Pair)
      ensures Valid() && oled == p.oled && info == p.info
    {
      oled, info := p.oled, p.info;
      width, height := SCREEN_WIDTH, SCREEN_HEIGHT;
    }

    /** `Device::connect` over the enumeration `infos`. */
    static method Connect(infos: seq<HidInfo>) returns (r: Result<Device>)
      requires ConnectSafe(infos)
      ensures Select(infos).Err? ==> r == Err(Select(infos).error)
      ensures Select(infos).Ok? ==> r.Ok? && fresh(r.value) && r.value.Valid()
                                    && r.value.oled == Select(infos).value.oled
                                    && r.value.info == Select(infos).value.info
    {
      match Select(infos)
      case Err(e) =>
        r := Err(e);
      case Ok(p) =>
        var d := new Device(p);
        r := Ok(d);
    }

    /** `reconnect`: the device is replaced only when connecting succeeds. */
    method Reconnect(infos: seq<HidInfo>) returns (res: Outcome)
      requires ConnectSafe(infos)
      modifies this
      ensures Select(infos).Err? ==> res == Fail(Select(infos).error) && unchanged(this)
      ensures Select(infos).Ok? ==> res == Pass && Valid()
                                    && oled == Select(infos).value.oled && info == Select(infos).value.info
    {
      var r := Connect(infos);
      match r
      case Err(e) =>
        res := Fail(e);
      case Ok(d) =>
        oled, info, width, height := d.oled, d.info, d.width, d.height;
        res := Pass;
    }

    /** `draw`: sends one report per chunk, in order, and stops at the first
        send that fails; `sendOk[i]` is the outcome of the i-th send. */
    method Draw(bitmap: Raster, x: int, y: int, sendOk: seq<bool>) returns (sent: seq<seq<byte>>, res: Outcome)
      requires Valid() && bitmap.Valid() && OffsetFits(x, bitmap.w) && OffsetFits(y, bitmap.h)
      ensures var rs := DrawReports(bitmap, x, y, width, height);
              var k := FirstFailure(sendOk, |rs|);
              && sent == rs[..Min(k + 1, |rs|)]
              && (res == Pass <==> k == |rs|)
              && (res != Pass ==> res == Fail(IoError))
    {
      sent, res := SendReports(bitmap, x, y, width, height, sendOk);
    }

    /** `set_brightness`: out-of-range values fail without writing; otherwise
        the report is written and the write's outcome is returned. */
    method SetBrightness(value: byte, writeOk: bool) returns (written: Option<seq<byte>>, res: Outcome)
      ensures BrightnessReport(value).Err? ==> written == None && res == Fail(BrightnessReport(value).error)
      ensures BrightnessReport(value).Ok? ==> written == Some(BrightnessReport(value).value)
                                              && res == if writeOk then Pass else Fail(IoError)
    {
      if value < 0x01 {
        return None, Fail(Bail("brightness too low"));
      } else if value > 0x0a {
        return None, Fail(Bail("brightness too high"));
      }
      var report := OutputReport(0x85, value);
      written := Some(report);
      res := if writeOk then Pass else Fail(IoError);
    }

    /** `return_to_ui`: writes command 0x95. */
    method ReturnToUi(writeOk: bool) returns (written: seq<byte>, res: Outcome)
      ensures |written| == 64 && written[..2] == [0x06, 0x95] && forall k :: 2 <= k < 64 ==> written[k] == 0
      ensures res == if writeOk then Pass else Fail(IoError)
    {
      written := OutputReport(0x95, 0);
      res := if writeOk then Pass else Fail(IoError);
    }

    /** `poll_event`: switches the info interface to blocking mode and
        parses whatever the one read leaves in the zeroed buffer, so an
        empty read gives no event rather than an error. */
    method PollEvent(modeOk: bool, read: HidRead) returns (r: Result<Option<DeviceEvent>>)
      ensures !modeOk || read.ReadFail? <==> r == Err(IoError)
      ensures modeOk && read.ReadBytes? ==> r == Ok(ParseEvent(Buffer(read.bytes)))
      ensures modeOk && read == ReadBytes([]) ==> r == Ok(None)
    {
      if !modeOk {
        return Err(IoError);
      }
      match read
      case ReadFail =>
        r := Err(IoError);
      case ReadBytes(bytes) =>
        r := Ok(ParseEvent(Buffer(bytes)));
    }

    /** `get_events`: switches the info interface to non-blocking mode
        (`modeOk` is its outcome), then reads until a read returns nothing,
        keeping the recognised events; a failed read fails the call. */
    method GetEvents(modeOk: bool, input: seq<HidRead>) returns (r: Result<seq<DeviceEvent>>)
      ensures r == if modeOk then Events(input) else Err(IoError)
    {
      if !modeOk {
        return Err(IoError);
      }
      var events: seq<DeviceEvent> := [];
      var i := 0;
      assert input[0..] == input;
      PrependNothing(Events(input));
      while true
        invariant 0 <= i <= |input|
        invariant Events(input) == Prepend(events, Events(input[i..]))
        decreases |input| - i
      {
        var read := if i < |input| then input[i] else ReadBytes([]);
        match read
        case ReadFail =>
          assert Events(input[i..]) == Err(IoError);
          return Err(IoError);
        case ReadBytes(bytes) =>
          if |bytes| == 0 {
            break;
          }
          var e := ParseEvent(Buffer(bytes));
          ghost var before := events;
          if e.Some? {
            events := events + [e.value];
          }
          assert events == before + Recognised(Buffer(bytes));
          assert input[i..][1..] == input[i + 1..];
          PrependPrepend(before, Recognised(Buffer(bytes)), Events(input[i + 1..]));
          i := i + 1;
      }
      assert Events(input[i..]) == Ok([]);
      assert events + [] == events;
      r := Ok(events);
    }
  }
}
