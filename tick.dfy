/** One pass of the loop of `run_draw_device_thread`
    (`ggoled_draw/src/lib.rs`): drain the commands, maybe reconnect, render
    and send a frame, forward the device's events. The loop's locals are the
    fields of `RenderThread`; the clock readings, the channel contents and
    the results of `reconnect`, `draw` and `get_events` are inputs. Time is
    in nanoseconds. */
module DrawThread {
  import opened Common
  import opened Bitmaps
  import opened Layers
  import opened LayerStore
  import Hid

  const OLED_SHIFT_PERIOD: nat := 90 * SECOND
  const RECONNECT_PERIOD: nat := SECOND

  /** The cycle of screen offsets that spreads burn-in. */
  const OLED_SHIFTS: seq<(int, int)> :=
    [(0, 0), (0, -1), (1, -1), (1, 0), (1, 1), (0, 1), (-1, 1), (-1, 0), (-1, -1)]

  datatype ShiftMode = Off | Simple

  datatype DrawCommand = Play | Pause | SetShiftMode(mode: ShiftMode) | Stop

  datatype DrawEvent = DeviceDisconnected | DeviceReconnected | DeviceEvent(event: Hid.DeviceEvent)

  /** Two offsets at most one pixel apart on each axis. */
  predicate Near(a: (int, int), b: (int, int)) {
    -1 <= a.0 - b.0 <= 1 && -1 <= a.1 - b.1 <= 1
  }

  /** The cycle starts at the origin, every offset is within one pixel of
      it, and each move of the cycle, the wrap from the last offset back to
      the first included, shifts by at most one pixel on each axis. */
  lemma ShiftCycleIsSmall()
    ensures |OLED_SHIFTS| == 9 && OLED_SHIFTS[0] == (0, 0)
    ensures forall i :: 0 <= i < 9 ==> Near(OLED_SHIFTS[i], (0, 0))
    ensures forall i {:trigger NextShift(i)} :: 0 <= i < 9 ==> Near(OLED_SHIFTS[i], OLED_SHIFTS[NextShift(i)])
  {
    forall i | 0 <= i < 9
      ensures Near(OLED_SHIFTS[i], (0, 0)) && Near(OLED_SHIFTS[i], OLED_SHIFTS[NextShift(i)])
    {
      if i == 8 {
        assert NextShift(i) == 0;
      } else {
        assert NextShift(i) == i + 1;
      }
    }
  }

  /** `(oled_shift + 1) % OLED_SHIFTS.len()`. */
  function NextShift(i: nat): (j: nat)
    ensures j < 9
  {
    (i + 1) % 9
  }

  // ---------------------------------------------------------------------
  // Commands

  /** What the commands control: play state, shift mode, stop request. */
  datatype Controls = Controls(playing: bool, shiftMode: ShiftMode, stop: bool)

  function Apply(c: Controls, cmd: DrawCommand): Controls {
    match cmd
    case Play => c.(playing := true)
    case Pause => c.(playing := false)
    case SetShiftMode(m) => c.(shiftMode := m)
    case Stop => c.(stop := true)
  }

  /** The commands of one drain applied in order. */
  function Drain(c: Controls, cmds: seq<DrawCommand>): Controls
    decreases |cmds|
  {
    if cmds == [] then c else Apply(Drain(c, cmds[..|cmds| - 1]), cmds[|cmds| - 1])
  }

  predicate PlayOrPause(cmd: DrawCommand) {
    cmd.Play? || cmd.Pause?
  }

  /** A Stop anywhere in a drain is remembered. */
  lemma {:induction false} DrainStop(c: Controls, cmds: seq<DrawCommand>)
    ensures Drain(c, cmds).stop <==> c.stop || Stop in cmds
  {
    if cmds != [] {
      var n := |cmds| - 1;
      DrainStop(c, cmds[..n]);
      assert cmds == cmds[..n] + [cmds[n]];
    }
  }

  /** The last Play or Pause of a drain decides the play state. */
  lemma {:induction false} DrainLastPlay(c: Controls, cmds: seq<DrawCommand>, k: nat)
    requires k < |cmds| && PlayOrPause(cmds[k])
    requires forall j :: k < j < |cmds| ==> !PlayOrPause(cmds[j])
    ensures Drain(c, cmds).playing == cmds[k].Play?
  {
    var n := |cmds| - 1;
    if k < n {
      var front := cmds[..n];
      assert forall j :: k < j < n ==> front[j] == cmds[j];
      DrainLastPlay(c, front, k);
    }
  }

  /** A drain with no Play or Pause keeps the play state. */
  lemma {:induction false} DrainNoPlay(c: Controls, cmds: seq<DrawCommand>)
    requires forall j :: 0 <= j < |cmds| ==> !PlayOrPause(cmds[j])
    ensures Drain(c, cmds).playing == c.playing
  {
    if cmds != [] {
      var n := |cmds| - 1;
      var front := cmds[..n];
      assert forall j :: 0 <= j < n ==> front[j] == cmds[j];
      DrainNoPlay(c, front);
    }
  }

  /** The last shift mode set in a drain decides the mode. */
  lemma {:induction false} DrainLastMode(c: Controls, cmds: seq<DrawCommand>, k: nat)
    requires k < |cmds| && cmds[k].SetShiftMode?
    requires forall j :: k < j < |cmds| ==> !cmds[j].SetShiftMode?
    ensures Drain(c, cmds).shiftMode == cmds[k].mode
  {
    var n := |cmds| - 1;
    if k < n {
      var front := cmds[..n];
      assert forall j :: k < j < n ==> front[j] == cmds[j];
      DrainLastMode(c, front, k);
    }
  }

  /** A drain that sets no shift mode keeps the mode. */
  lemma {:induction false} DrainNoMode(c: Controls, cmds: seq<DrawCommand>)
    requires forall j :: 0 <= j < |cmds| ==> !cmds[j].SetShiftMode?
    ensures Drain(c, cmds).shiftMode == c.shiftMode
  {
    if cmds != [] {
      var n := |cmds| - 1;
      var front := cmds[..n];
      assert forall j :: 0 <= j < n ==> front[j] == cmds[j];
      DrainNoMode(c, front);
    }
  }

  // ---------------------------------------------------------------------
  // The stages of one pass, as values

  /** The loop's locals: `prev_screen`, `playing`, `oled_shift`,
      `last_shift`, `shift_mode`, `connected`, `last_connect_attempt`,
      `last_frame_time`. */
  datatype Loop = Loop(prevScreen: Raster, playing: bool, oledShift: nat, lastShift: int, shiftMode: ShiftMode,
                       connected: bool, lastConnectAttempt: int, lastFrameTime: int)

  /** What one pass reads from the outside: the clock at its start and after
      rendering, the queued commands, and the outcomes of `reconnect`,
      `draw` and `get_events` (each used only if that call is made). */
  datatype Inputs = Inputs(time: int, cmds: seq<DrawCommand>, reconnectOk: bool, frameTime: int,
                           drawOk: bool, polled: Result<seq<Hid.DeviceEvent>>)

  datatype Staged = Staged(loop: Loop, events: seq<DrawEvent>)

  /** A reconnect is attempted when disconnected for at least
      `RECONNECT_PERIOD` since the last attempt; the attempt time moves
      whatever the outcome. */
  function Reconnect(s: Loop, time: int, ok: bool): Staged {
    if !s.connected && time - s.lastConnectAttempt >= RECONNECT_PERIOD then
      var s' := s.(lastConnectAttempt := time);
      if ok then Staged(s'.(connected := true), [DeviceReconnected]) else Staged(s', [])
    else Staged(s, [])
  }

  /** Under `Simple` the offset index moves on once `OLED_SHIFT_PERIOD` has
      passed since the last move. */
  function Shift(s: Loop, time: int): Loop {
    match s.shiftMode
    case Off => s
    case Simple =>
      if time - s.lastShift >= OLED_SHIFT_PERIOD then s.(oledShift := NextShift(s.oledShift), lastShift := time)
      else s
  }

  /** The offset added to every layer: none under `Off`, and never more than
      a pixel on either axis. */
  function ShiftOffset(s: Loop): (o: (int, int))
    requires s.oledShift < 9
    ensures s.shiftMode.Off? ==> o == (0, 0)
    ensures Near(o, (0, 0))
  {
    match s.shiftMode
    case Off => (0, 0)
    case Simple => OLED_SHIFTS[s.oledShift]
  }

  datatype Sent = Sent(loop: Loop, events: seq<DrawEvent>, sent: Option<Raster>)

  /** A composed screen is sent when it differs from the last one sent
      successfully or a second has passed since the last send; a failed send
      disconnects, a successful one becomes the new `prev_screen`. */
  function Send(s: Loop, screen: Raster, frameTime: int, drawOk: bool): Sent {
    if screen != s.prevScreen || frameTime - s.lastFrameTime >= SECOND then
      var s' := s.(lastFrameTime := frameTime);
      if !drawOk then
        if s'.connected then Sent(s'.(connected := false), [DeviceDisconnected], Some(screen))
        else Sent(s', [], Some(screen))
      else Sent(s'.(prevScreen := screen), [], Some(screen))
    else Sent(s, [], None)
  }

  function Forward(es: seq<Hid.DeviceEvent>): (r: seq<DrawEvent>)
    ensures |r| == |es| && forall i :: 0 <= i < |es| ==> r[i] == DeviceEvent(es[i])
  {
    seq(|es|, i requires 0 <= i < |es| => DeviceEvent(es[i]))
  }

  /** While connected the device's events are forwarded in order; a failed
      poll disconnects. */
  function Poll(s: Loop, polled: Result<seq<Hid.DeviceEvent>>): Staged {
    if s.connected then
      match polled
      case Err(_) => Staged(s.(connected := false), [DeviceDisconnected])
      case Ok(es) => Staged(s, Forward(es))
    else Staged(s, [])
  }

  datatype TickResult = TickResult(loop: Loop, layers: seq<Entry>, events: seq<DrawEvent>, sent: Option<Raster>, stop: bool)

  /** One pass of the loop on a `width`×`height` screen. */
  function Step(s: Loop, layers: seq<Entry>, width: nat, height: nat, inp: Inputs): TickResult
    requires s.oledShift < 9 && EntriesValid(layers)
  {
    var c := Drain(Controls(s.playing, s.shiftMode, false), inp.cmds);
    var s1 := s.(playing := c.playing, shiftMode := c.shiftMode);
    var r := Reconnect(s1, inp.time, inp.reconnectOk);
    if r.loop.connected && r.loop.playing then
      var s3 := Shift(r.loop, inp.time);
      var off := ShiftOffset(s3);
      var screen := Render(Filled(width, height, false), layers, width, off.0, off.1);
      var d := Send(s3, screen, inp.frameTime, inp.drawOk);
      var p := Poll(d.loop, inp.polled);
      TickResult(p.loop, Advanced(layers, inp.time), r.events + d.events + p.events, d.sent, c.stop)
    else
      var p := Poll(r.loop, inp.polled);
      TickResult(p.loop, layers, r.events + p.events, None, c.stop)
  }

  // ---------------------------------------------------------------------
  // Properties of one pass

  /** Whether this pass renders: connected (after any reconnect) and playing
      (after the drain). */
  predicate Renders(s: Loop, inp: Inputs) {
    var c := Drain(Controls(s.playing, s.shiftMode, false), inp.cmds);
    Reconnect(s.(playing := c.playing, shiftMode := c.shiftMode), inp.time, inp.reconnectOk).loop.connected
    && c.playing
  }

  /** The offset index stays in the cycle and moves at most one place, only
      under `Simple`, only when the pass renders and only once the period has
      passed. */
  lemma StepShift(s: Loop, layers: seq<Entry>, width: nat, height: nat, inp: Inputs)
    requires s.oledShift < 9 && EntriesValid(layers)
    ensures var r := Step(s, layers, width, height, inp);
            && r.loop.oledShift < 9
            && ((r.loop.oledShift == s.oledShift && r.loop.lastShift == s.lastShift)
                || (r.loop.oledShift == NextShift(s.oledShift) && r.loop.lastShift == inp.time
                    && r.loop.shiftMode == Simple && Renders(s, inp) && inp.time - s.lastShift >= OLED_SHIFT_PERIOD))
  {
    var c := Drain(Controls(s.playing, s.shiftMode, false), inp.cmds);
    var rc := Reconnect(s.(playing := c.playing, shiftMode := c.shiftMode), inp.time, inp.reconnectOk);
    assert rc.loop.oledShift == s.oledShift && rc.loop.lastShift == s.lastShift;
    StepLoop(s, layers, width, height, inp);
    if rc.loop.connected && rc.loop.playing {
      SendPollKeepShift(Shift(rc.loop, inp.time), Composed(s, layers, width, height, inp), inp);
    }
  }

  /** A reconnect is attempted exactly when the pass starts disconnected and
      the reconnect period has passed; the attempt time moves whatever the
      outcome. */
  lemma StepReconnectAttempt(s: Loop, layers: seq<Entry>, width: nat, height: nat, inp: Inputs)
    requires s.oledShift < 9 && EntriesValid(layers)
    ensures var attempt := !s.connected && inp.time - s.lastConnectAttempt >= RECONNECT_PERIOD;
            Step(s, layers, width, height, inp).loop.lastConnectAttempt
              == if attempt then inp.time else s.lastConnectAttempt
  {
  }

  /** A reconnect is reported exactly when an attempt succeeds, and then at
      the head of the pass's events. */
  lemma StepReconnectEvent(s: Loop, layers: seq<Entry>, width: nat, height: nat, inp: Inputs)
    requires s.oledShift < 9 && EntriesValid(layers)
    ensures var r := Step(s, layers, width, height, inp);
            var attempt := !s.connected && inp.time - s.lastConnectAttempt >= RECONNECT_PERIOD;
            |r.events| > 0 && r.events[0] == DeviceReconnected <==> attempt && inp.reconnectOk
  {
  }

  /** No pass reports a reconnect anywhere but at the head of its events. */
  lemma StepReconnectOnce(s: Loop, layers: seq<Entry>, width: nat, height: nat, inp: Inputs)
    requires s.oledShift < 9 && EntriesValid(layers)
    ensures var r := Step(s, layers, width, height, inp);
            r.events != [] ==> DeviceReconnected !in r.events[1..]
  {
    var r := Step(s, layers, width, height, inp);
    var c := Drain(Controls(s.playing, s.shiftMode, false), inp.cmds);
    var rc := Reconnect(s.(playing := c.playing, shiftMode := c.shiftMode), inp.time, inp.reconnectOk);
    if rc.loop.connected && rc.loop.playing {
      var s3 := Shift(rc.loop, inp.time);
      var off := ShiftOffset(s3);
      var screen := Render(Filled(width, height, false), layers, width, off.0, off.1);
      var d := Send(s3, screen, inp.frameTime, inp.drawOk);
      var p := Poll(d.loop, inp.polled);
      assert r.events == rc.events + (d.events + p.events);
      PollNoReconnect(d.loop, inp.polled);
      ReconnectAtHead(rc.events, d.events + p.events);
    } else {
      var p := Poll(rc.loop, inp.polled);
      assert r.events == rc.events + p.events;
      PollNoReconnect(rc.loop, inp.polled);
      ReconnectAtHead(rc.events, p.events);
    }
  }

  lemma PollNoReconnect(s: Loop, polled: Result<seq<Hid.DeviceEvent>>)
    ensures DeviceReconnected !in Poll(s, polled).events
  {
    if s.connected && polled.Ok? {
      var es := Poll(s, polled).events;
      forall i | 0 <= i < |es| ensures es[i] != DeviceReconnected {
        assert es[i] == DeviceEvent(polled.value[i]);
      }
    }
  }

  lemma ReconnectAtHead(head: seq<DrawEvent>, rest: seq<DrawEvent>)
    requires head == [] || head == [DeviceReconnected]
    requires DeviceReconnected !in rest
    ensures head + rest != [] ==> DeviceReconnected !in (head + rest)[1..]
  {
    if head == [] && rest != [] {
      assert (head + rest)[1..] == rest[1..];
      assert forall e :: e in rest[1..] ==> e in rest;
    } else if head != [] {
      assert (head + rest)[1..] == rest;
    }
  }

  /** At most one disconnect is reported per pass, and after one the loop is
      disconnected. */
  lemma StepDisconnect(s: Loop, layers: seq<Entry>, width: nat, height: nat, inp: Inputs)
    requires s.oledShift < 9 && EntriesValid(layers)
    ensures var r := Step(s, layers, width, height, inp);
            && (forall i, j :: 0 <= i < j < |r.events| ==> !(r.events[i] == r.events[j] == DeviceDisconnected))
            && (DeviceDisconnected in r.events ==> !r.loop.connected)
  {
    var r := Step(s, layers, width, height, inp);
    var c := Drain(Controls(s.playing, s.shiftMode, false), inp.cmds);
    var rc := Reconnect(s.(playing := c.playing, shiftMode := c.shiftMode), inp.time, inp.reconnectOk);
    if rc.loop.connected && rc.loop.playing {
      var s3 := Shift(rc.loop, inp.time);
      var off := ShiftOffset(s3);
      var screen := Render(Filled(width, height, false), layers, width, off.0, off.1);
      var d := Send(s3, screen, inp.frameTime, inp.drawOk);
      var p := Poll(d.loop, inp.polled);
      assert r.events == rc.events + d.events + p.events;
      assert DeviceDisconnected !in rc.events;
      if DeviceDisconnected in d.events {
        assert !d.loop.connected && p.events == [];
      }
    }
  }

  /** Whether the device is connected once the reconnect stage is over. */
  predicate Online(s: Loop, inp: Inputs) {
    var c := Drain(Controls(s.playing, s.shiftMode, false), inp.cmds);
    Reconnect(s.(playing := c.playing, shiftMode := c.shiftMode), inp.time, inp.reconnectOk).loop.connected
  }

  /** A disconnect is reported exactly when the device was connected and a
      `draw` of this pass or its `get_events` failed. */
  lemma StepDisconnectCause(s: Loop, layers: seq<Entry>, width: nat, height: nat, inp: Inputs)
    requires s.oledShift < 9 && EntriesValid(layers)
    ensures var r := Step(s, layers, width, height, inp);
            DeviceDisconnected in r.events <==> Online(s, inp) && ((r.sent.Some? && !inp.drawOk) || inp.polled.Err?)
  {
    var r := Step(s, layers, width, height, inp);
    var c := Drain(Controls(s.playing, s.shiftMode, false), inp.cmds);
    var rc := Reconnect(s.(playing := c.playing, shiftMode := c.shiftMode), inp.time, inp.reconnectOk);
    assert DeviceDisconnected !in rc.events;
    if rc.loop.connected && rc.loop.playing {
      var s3 := Shift(rc.loop, inp.time);
      var off := ShiftOffset(s3);
      var screen := Render(Filled(width, height, false), layers, width, off.0, off.1);
      var d := Send(s3, screen, inp.frameTime, inp.drawOk);
      var p := Poll(d.loop, inp.polled);
      assert r.events == rc.events + d.events + p.events && r.sent == d.sent;
      assert s3.connected;
    } else {
      var p := Poll(rc.loop, inp.polled);
      assert r.events == rc.events + p.events && r.sent.None?;
    }
  }

  /** Frames are sent only by a rendering pass, and a pass that does not
      render leaves the layers and `prev_screen` alone; a new `prev_screen`
      is the screen just sent, by a successful draw; nothing identical to the
      last screen is sent within a second of the last send. */
  lemma StepSend(s: Loop, layers: seq<Entry>, width: nat, height: nat, inp: Inputs)
    requires s.oledShift < 9 && EntriesValid(layers)
    ensures var r := Step(s, layers, width, height, inp);
            && (!Renders(s, inp) ==> r.sent.None? && r.layers == layers && r.loop.prevScreen == s.prevScreen)
            && (Renders(s, inp) ==> r.layers == Advanced(layers, inp.time))
            && (r.loop.prevScreen != s.prevScreen ==> inp.drawOk && r.sent == Some(r.loop.prevScreen))
            && (r.sent.Some? ==> r.sent.value != s.prevScreen || inp.frameTime - s.lastFrameTime >= SECOND)
  {
  }

  /** The screen a rendering pass composes: every layer drawn on a blank
      screen at the offset the pass's shift step leaves. */
  function Composed(s: Loop, layers: seq<Entry>, width: nat, height: nat, inp: Inputs): Raster
    requires s.oledShift < 9 && EntriesValid(layers)
  {
    var c := Drain(Controls(s.playing, s.shiftMode, false), inp.cmds);
    var rc := Reconnect(s.(playing := c.playing, shiftMode := c.shiftMode), inp.time, inp.reconnectOk);
    var off := ShiftOffset(Shift(rc.loop, inp.time));
    Render(Filled(width, height, false), layers, width, off.0, off.1)
  }

  /** What a send records: every send, successful or not, makes the frame
      time the new `last_frame_time`; a pass that sends nothing keeps it; a
      successful draw makes the screen sent the new `prev_screen`. */
  lemma StepSendRecords(s: Loop, layers: seq<Entry>, width: nat, height: nat, inp: Inputs)
    requires s.oledShift < 9 && EntriesValid(layers)
    ensures var r := Step(s, layers, width, height, inp);
            && (r.sent.Some? ==> r.loop.lastFrameTime == inp.frameTime)
            && (r.sent.None? ==> r.loop.lastFrameTime == s.lastFrameTime)
            && (r.sent.Some? && inp.drawOk ==> r.loop.prevScreen == r.sent.value)
  {
  }

  /** The converse of the send rule: a rendering pass whose screen differs
      from the last one sent, or that comes a second or more after the last
      send, sends that screen. */
  lemma StepSendsWhenDue(s: Loop, layers: seq<Entry>, width: nat, height: nat, inp: Inputs)
    requires s.oledShift < 9 && EntriesValid(layers)
    ensures var screen := Composed(s, layers, width, height, inp);
            (Renders(s, inp) && (screen != s.prevScreen || inp.frameTime - s.lastFrameTime >= SECOND))
              ==> Step(s, layers, width, height, inp).sent == Some(screen)
  {
  }

  /** The converse of the shift rule: a rendering pass under `Simple` that
      comes at least `OLED_SHIFT_PERIOD` after the last move moves the offset
      index one place and records the time. */
  lemma StepShiftsWhenDue(s: Loop, layers: seq<Entry>, width: nat, height: nat, inp: Inputs)
    requires s.oledShift < 9 && EntriesValid(layers)
    ensures var r := Step(s, layers, width, height, inp);
            (Renders(s, inp) && r.loop.shiftMode == Simple && inp.time - s.lastShift >= OLED_SHIFT_PERIOD)
              ==> r.loop.oledShift == NextShift(s.oledShift) && r.loop.lastShift == inp.time
  {
    var c := Drain(Controls(s.playing, s.shiftMode, false), inp.cmds);
    var rc := Reconnect(s.(playing := c.playing, shiftMode := c.shiftMode), inp.time, inp.reconnectOk);
    StepLoop(s, layers, width, height, inp);
    if rc.loop.connected && rc.loop.playing {
      var s3 := Shift(rc.loop, inp.time);
      SendPollKeepShift(s3, Composed(s, layers, width, height, inp), inp);
    }
  }

  /** The loop's locals after a pass, stage by stage. */
  lemma StepLoop(s: Loop, layers: seq<Entry>, width: nat, height: nat, inp: Inputs)
    requires s.oledShift < 9 && EntriesValid(layers)
    ensures var c := Drain(Controls(s.playing, s.shiftMode, false), inp.cmds);
            var rc := Reconnect(s.(playing := c.playing, shiftMode := c.shiftMode), inp.time, inp.reconnectOk);
            Step(s, layers, width, height, inp).loop
              == if rc.loop.connected && rc.loop.playing
                 then Poll(Send(Shift(rc.loop, inp.time), Composed(s, layers, width, height, inp), inp.frameTime, inp.drawOk).loop,
                           inp.polled).loop
                 else Poll(rc.loop, inp.polled).loop
  {
  }

  /** Sending and polling leave the shift locals alone. */
  lemma SendPollKeepShift(s: Loop, screen: Raster, inp: Inputs)
    ensures var p := Poll(Send(s, screen, inp.frameTime, inp.drawOk).loop, inp.polled).loop;
            p.oledShift == s.oledShift && p.lastShift == s.lastShift && p.shiftMode == s.shiftMode
  {
  }

  /** The screen sent is the union of the layers: a pixel is on exactly when
      some layer, shifted by the current offset, lights it. */
  lemma StepScreen(s: Loop, layers: seq<Entry>, width: nat, height: nat, inp: Inputs, px: nat, py: nat)
    requires s.oledShift < 9 && EntriesValid(layers) && px < width && py < height
    requires Step(s, layers, width, height, inp).sent.Some?
    ensures var r := Step(s, layers, width, height, inp);
            var off := ShiftOffset(r.loop);
            && r.sent.value.Valid() && r.sent.value.w == width && r.sent.value.h == height
            && (At(r.sent.value, px, py) <==> exists i :: 0 <= i < |layers| && LayerLights(layers[i].state, width, off.0, off.1, px, py))
  {
    var c := Drain(Controls(s.playing, s.shiftMode, false), inp.cmds);
    var rc := Reconnect(s.(playing := c.playing, shiftMode := c.shiftMode), inp.time, inp.reconnectOk);
    var s3 := Shift(rc.loop, inp.time);
    var off := ShiftOffset(s3);
    var blank := Filled(width, height, false);
    var screen := Render(blank, layers, width, off.0, off.1);
    var r := Step(s, layers, width, height, inp);
    assert r.sent == Some(screen);
    assert r.loop.oledShift == s3.oledShift && r.loop.shiftMode == s3.shiftMode;
    FilledAt(width, height, false, px, py);
    RenderAt(blank, layers, width, off.0, off.1, px, py);
  }

  /** The loop ends after this pass exactly when a Stop was queued. */
  lemma StepStop(s: Loop, layers: seq<Entry>, width: nat, height: nat, inp: Inputs)
    requires s.oledShift < 9 && EntriesValid(layers)
    ensures Step(s, layers, width, height, inp).stop <==> Stop in inp.cmds
  {
    DrainStop(Controls(s.playing, s.shiftMode, false), inp.cmds);
  }

  // ---------------------------------------------------------------------
  // The loop itself

  class RenderThread {
    var width: nat
    var height: nat
    var prevScreen: Raster
    var playing: bool
    var oledShift: nat
    var lastShift: int
    var shiftMode: ShiftMode
    var connected: bool
    var lastConnectAttempt: int
    var lastFrameTime: int

    ghost predicate Valid()
      reads this
    {
      oledShift < 9
    }

    function State(): Loop
      reads this
    {
      Loop(prevScreen, playing, oledShift, lastShift, shiftMode, connected, lastConnectAttempt, lastFrameTime)
    }

    /** The locals before the first pass: an empty `prev_screen`, paused, no
        shift, connected, every timestamp at `start`. */
    constructor (width: nat, height: nat, start: int)
      ensures Valid() && this.width == width && this.height == height
      ensures State() == Loop(Filled(0, 0, false), false, 0, start, Off, true, start, start)
    {
      this.width, this.height := width, height;
      prevScreen := Filled(0, 0, false);
      playing := false;
      oledShift := 0;
      lastShift := start;
      shiftMode := Off;
      connected := true;
      lastConnectAttempt := start;
      lastFrameTime := start;
    }

    /** One pass of the loop over the shared layer map. */
    method Tick(layers: LayerMap, inp: Inputs) returns (events: seq<DrawEvent>, sent: Option<Raster>, stop: bool)
      requires Valid() && EntriesValid(layers.entries)
      modifies this, layers
      ensures Valid() && width == old(width) && height == old(height)
      ensures var r := Step(old(State()), old(layers.entries), width, height, inp);
              && State() == r.loop && layers.entries == r.layers
              && events == r.events && sent == r.sent && stop == r.stop
    {
      stop := DrainCommands(inp.cmds);
      events := ReconnectPhase(inp.time, inp.reconnectOk);
      sent := None;
      if connected && playing {
        var evs;
        sent, evs := RenderFrame(layers, inp);
        events := events + evs;
      }
      var polled := PollPhase(inp.polled);
      events := events + polled;
    }

    /** `while let Ok(cmd) = cmd_receiver.try_recv()`: the queued commands,
        in order; the result is `stop_after_frame`. */
    method DrainCommands(cmds: seq<DrawCommand>) returns (stopAfterFrame: bool)
      requires Valid()
      modifies this
      ensures Valid() && width == old(width) && height == old(height)
      ensures var c := Drain(Controls(old(playing), old(shiftMode), false), cmds);
              State() == old(State()).(playing := c.playing, shiftMode := c.shiftMode) && stopAfterFrame == c.stop
    {
      ghost var s0 := State();
      stopAfterFrame := false;
      for i := 0 to |cmds|
        invariant Controls(playing, shiftMode, stopAfterFrame) == Drain(Controls(s0.playing, s0.shiftMode, false), cmds[..i])
        invariant State() == s0.(playing := playing, shiftMode := shiftMode) && Valid()
        invariant width == old(width) && height == old(height)
      {
        assert cmds[..i + 1][..i] == cmds[..i];
        match cmds[i] {
          case Play => playing := true;
          case Pause => playing := false;
          case SetShiftMode(mode) => shiftMode := mode;
          case Stop => stopAfterFrame := true;
        }
      }
      assert cmds[..|cmds|] == cmds;
    }

    /** The reconnect step; `ok` is the outcome of `dev.reconnect()`. */
    method ReconnectPhase(time: int, ok: bool) returns (events: seq<DrawEvent>)
      requires Valid()
      modifies this
      ensures Valid() && width == old(width) && height == old(height)
      ensures var r := Reconnect(old(State()), time, ok);
              State() == r.loop && events == r.events
    {
      events := [];
      if !connected && time - lastConnectAttempt >= RECONNECT_PERIOD {
        lastConnectAttempt := time;
        if ok {
          connected := true;
          events := [DeviceReconnected];
        }
      }
    }

    /** The event step; `polled` is the outcome of `dev.get_events()`. */
    method PollPhase(polled: Result<seq<Hid.DeviceEvent>>) returns (events: seq<DrawEvent>)
      requires Valid()
      modifies this
      ensures Valid() && width == old(width) && height == old(height)
      ensures var p := Poll(old(State()), polled);
              State() == p.loop && events == p.events
    {
      events := [];
      if connected {
        match polled {
          case Err(_) =>
            connected := false;
            events := [DeviceDisconnected];
          case Ok(es) =>
            events := Forward(es);
        }
      }
    }

    /** The render branch: shift, compose, send if needed. */
    method RenderFrame(layers: LayerMap, inp: Inputs) returns (sent: Option<Raster>, evs: seq<DrawEvent>)
      requires Valid() && EntriesValid(layers.entries)
      modifies this, layers
      ensures Valid() && width == old(width) && height == old(height)
      ensures var s3 := Shift(old(State()), inp.time);
              var off := ShiftOffset(s3);
              var screen := Render(Filled(width, height, false), old(layers.entries), width, off.0, off.1);
              var d := Send(s3, screen, inp.frameTime, inp.drawOk);
              && State() == d.loop && sent == d.sent && evs == d.events && layers.entries == Advanced(old(layers.entries), inp.time)
    {
      var shiftX, shiftY := ShiftFrame(inp.time);
      var screen := new Bitmap(width, height, false);
      layers.RenderOnto(screen, inp.time, width, shiftX, shiftY);
      sent, evs := SendScreen(screen.Value(), inp.frameTime, inp.drawOk);
    }

    /** The shift step of a rendered frame, giving the offset to draw at. */
    method ShiftFrame(time: int) returns (shiftX: int, shiftY: int)
      requires Valid()
      modifies this
      ensures Valid() && width == old(width) && height == old(height)
      ensures State() == Shift(old(State()), time) && (shiftX, shiftY) == ShiftOffset(State())
    {
      shiftX, shiftY := 0, 0;
      match shiftMode {
        case Off =>
        case Simple =>
          if time - lastShift >= OLED_SHIFT_PERIOD {
            oledShift := (oledShift + 1) % |OLED_SHIFTS|;
            assert oledShift == NextShift(old(oledShift));
            lastShift := time;
          }
          shiftX, shiftY := OLED_SHIFTS[oledShift].0, OLED_SHIFTS[oledShift].1;
      }
    }

    /** The send step of a rendered frame. */
    method SendScreen(image: Raster, frameTime: int, drawOk: bool) returns (sent: Option<Raster>, evs: seq<DrawEvent>)
      requires Valid()
      modifies this
      ensures Valid() && width == old(width) && height == old(height)
      ensures var d := Send(old(State()), image, frameTime, drawOk);
              State() == d.loop && sent == d.sent && evs == d.events
    {
      sent, evs := None, [];
      var forceRedraw := frameTime - lastFrameTime >= SECOND;
      if image != prevScreen || forceRedraw {
        lastFrameTime := frameTime;
        sent := Some(image);
        if !drawOk {
          if connected {
            connected := false;
            evs := [DeviceDisconnected];
          }
        } else {
          prevScreen := image;
        }
      }
    }
  }
}
