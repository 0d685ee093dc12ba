# ggoled in Dafny

A model of the core of ggoled, a driver for the OLED screen of the
SteelSeries Arctis Nova Pro headset base station, with proofs about it.
It has four parts.

- **The 1-bit raster.** `Bitmap` as `ggoled_lib/src/bitmap.rs` has it:
  it can be created, cropped, blitted at a signed offset (opaquely or
  transparently) and inverted. Module `Bitmaps` defines a `Raster` value
  type with the functions that specify each operation, plus a `Bitmap`
  class whose methods run the source's loops over a bit sequence.
  `LegacyBitmaps` holds the older `src/bitmap.rs`, whose blit is always
  opaque.
- **The device layer** of `ggoled_lib/src/lib.rs`:
  - `Report` covers how `prepare_for_report` clips and splits. It also
    covers the column-major packing that `create_report` writes into a
    1024-byte HID feature report, with a decoder and a round-trip proof.
    `src/gg.rs` has the same two functions with identical code, so they
    are modelled once, here.
  - `Hid` covers device selection in `connect`, `reconnect`, `draw`,
    `set_brightness`, `return_to_ui`, `parse_event`, `poll_event` and
    `get_events`.
  - `LegacyHid` covers the single-interface `connect` and `draw` of
    `src/gg.rs`.
- **The draw engine** of `ggoled_draw/src/lib.rs`:
  - `Layers` gives a layer's placements on the screen, the OR-composition
    of all layers in id order, and how the animation and scroll states
    move on. It also holds `center_bitmap` and the threshold rule of
    `bitmap_from_image`.
  - `LayerStore` has the ordered layer map and the `DrawDevice`
    operations that edit it.
  - `DrawThread` has one pass of `run_draw_device_thread`. The pass is a
    function `Step` over the loop's locals, and lemmas are proved about
    it. A `RenderThread` class holds those locals as fields; its `Tick`
    method runs the pass phase by phase and is proved equal to `Step`.
- **The command-line front ends.** `Cli` covers `ggoled_cli/src/main.rs`:
  the `DrawPos` parser, the stdin grouping of `text`, and the frame
  delays of `anim` with the draw positions its code computes (see
  "## Findings"). `LegacyCli` covers what `src/main.rs` does differently:
  `Bitmap::from_image` with a `usize` threshold, and `draw_with_args`.
  The older `DrawPos::from_str` (`src/main.rs:105-116`), stdin grouping
  (`src/main.rs:302-314`) and delay selection (`src/main.rs:338-350`) are
  the same code as the newer ones, so `Cli.FromStr`, `Cli.GroupStdin` and
  `Cli.AnimFrames` model both.

How the model treats the outside world:

- **Time.** `Instant` and `Duration` are integers in nanoseconds, and
  `duration_since` is a subtraction.
- **Device calls.** The device is an oracle given as parameters:
  - the enumeration list of HID interfaces;
  - one boolean per `send_feature_report` or `write`;
  - a sequence of reads for `get_events`;
  - `Result` values for `reconnect` and `get_events`.
- **Integers.** `usize` and `isize` arithmetic is on `int`:
  - `as u8` is `U8`, a reduction mod 256;
  - `isize` division truncates toward zero (`TruncDiv`);
  - `saturating_sub` is `SatSub`;
  - a `usize` subtraction that would underflow (a Rust panic) becomes a
    precondition.

## Model

| member | source | states |
|---|---|---|
| Bitmaps.FilledAt | ggoled_lib/src/bitmap.rs:12-15 | every pixel of `new(w, h, on)` is `on`, and the bit array has `w*h` entries |
| Bitmaps.Bitmap.constructor | ggoled_lib/src/bitmap.rs:12-15 | the new object holds the filled raster of the given size |
| Bitmaps.CroppedAt | ggoled_lib/src/bitmap.rs:18-28 | as written, pixel (i, j) of the cropped bitmap is pixel (i, j) of the source, with the requested `w`×`h` size |
| Bitmaps.CropIgnoresOffset | ggoled_lib/src/bitmap.rs:22-26 | for every offset, `crop` gives the same result as the crop at (0, 0): the offset plays no part |
| Bitmaps.CropCounterexample | ggoled_lib/src/bitmap.rs:22-26 | on a 2×1 bitmap, cropping pixel (1, 0) returns the off pixel at (0, 0) instead of the on pixel at (1, 0) |
| Bitmaps.WindowAt | ggoled_lib/src/bitmap.rs:17-20 | corrected crop: pixel (i, j) of the result is source pixel (x+i, y+j), under the same bounds the asserts demand |
| Bitmaps.Bitmap.Crop | ggoled_lib/src/bitmap.rs:18-28 | needs the bounds of the two asserts; returns a fresh bitmap equal to the crop as written |
| Bitmaps.BlittedAt | ggoled_lib/src/bitmap.rs:32-48 | blit keeps the size; a pixel that `other` does not cover is unchanged; a covered pixel takes `other`'s pixel (opaque) or old OR `other`'s pixel (transparent) |
| Bitmaps.TransparentNeverClears | ggoled_lib/src/bitmap.rs:42-44 | a transparent blit never turns a lit pixel off |
| Bitmaps.TransparentBlankIsIdentity | ggoled_lib/src/bitmap.rs:42-44 | transparently blitting an all-off bitmap changes nothing |
| Bitmaps.OpaqueBlankClears | ggoled_lib/src/bitmap.rs:40-41 | an opaque blit of an all-off bitmap clears every pixel it covers |
| Bitmaps.Bitmap.Blit | ggoled_lib/src/bitmap.rs:32-48 | the in-place double loop leaves exactly the blitted raster |
| Bitmaps.InvertInvolution | ggoled_lib/src/bitmap.rs:51-53 | inverting twice restores the bitmap |
| Bitmaps.Bitmap.Invert | ggoled_lib/src/bitmap.rs:51-53 | the object afterwards holds the inverted raster |
| LegacyBitmaps.Bitmap.constructor | src/bitmap.rs:11-14 | the new object holds the filled raster |
| LegacyBitmaps.Bitmap.Crop | src/bitmap.rs:17-27 | the same bounds and the same offset-ignoring result as the newer crop |
| LegacyBitmaps.Bitmap.Blit | src/bitmap.rs:30-42 | the older blit is the opaque blit |
| LegacyBitmaps.LegacyBlitAt | src/bitmap.rs:33-38 | a covered pixel takes the source pixel, every other pixel is unchanged, and the size is kept |
| LegacyBitmaps.Bitmap.Invert | src/bitmap.rs:45-47 | the object afterwards holds the inverted raster |
| Report.StrideBounds | ggoled_lib/src/lib.rs:171 | the stride is a multiple of 8, at least the chunk height, and less than 8 beyond `dst_y % 8 + h` |
| Report.HeaderBytes | ggoled_lib/src/lib.rs:165-170 | bytes 0-5 of the report are 0x06, 0x93 and `dst_x`, `dst_y`, `w`, `h`, each taken mod 256 |
| Report.ShiftIsMask | ggoled_lib/src/lib.rs:177 | `(pixel as u8) << (ri % 8)` is the one-bit mask of bit `ri % 8` when the pixel is on, and 0 otherwise |
| Report.EncodedBit | ggoled_lib/src/lib.rs:172-179 | bit `ri % 8` of payload byte `ri / 8` is set exactly when payload position `ri` carries a lit chunk pixel |
| Report.RoundTrip | ggoled_lib/src/lib.rs:172-179 | decoding bit `ri % 8` of byte `6 + ri/8`, with `ri = x*stride + y`, gives back chunk pixel (x, y) for every pixel of the chunk |
| Report.PaddingIsClear | ggoled_lib/src/lib.rs:164-179 | every set bit from byte 6 on lies at `x*stride + y` for a column x < w and a row y < h; all other bits stay 0 |
| Report.SmallChunkFits | ggoled_lib/src/lib.rs:171-177 | a chunk of at most 64×64 pixels writes only inside the 1024-byte report |
| Report.CreateReport | ggoled_lib/src/lib.rs:163-181 | the nested OR loop builds exactly the encoded report |
| Report.Visible | ggoled_lib/src/lib.rs:185-210 | defines the clipping of one axis: source offset, screen offset and length; specified by `VisibleExact` and `VisibleBounds` |
| Report.VisibleExact | ggoled_lib/src/lib.rs:188-210 | clipping keeps exactly the bitmap pixels that land on the screen, and each one keeps its screen position |
| Report.VisibleBounds | ggoled_lib/src/lib.rs:188-210 | after clipping, `dst + len <= width` and `src + len <= bitmap size`; a negative offset becomes the source offset and shrinks the span; an offset at or past the edge leaves nothing |
| Report.Chunks | ggoled_lib/src/lib.rs:184-226 | the drawables of a bitmap at (x, y): `ceil(w / 64)` of them over the clipped width; their layout is stated by `ChunksTile` and `ChunksFit` |
| Report.ChunksTile | ggoled_lib/src/lib.rs:212-226 | the chunks are 1 to 64 columns wide, all but the last are full, their widths add up to the clipped width, each starts 64 columns after the previous one on the screen and in the bitmap, and all share the rows |
| Report.ChunksFit | ggoled_lib/src/lib.rs:161-162 | every chunk of a valid bitmap on a screen at most 64 rows high reads inside the bitmap and writes inside the report |
| Report.PrepareForReport | ggoled_lib/src/lib.rs:184-227 | the mutating clip-and-split loop returns exactly the chunk list |
| Report.Split | ggoled_lib/src/lib.rs:212-225 | over the clipped rectangle, chunk `i` starts 64 columns after chunk `i - 1` on the screen and in the bitmap, is at most 64 wide, and there are `ceil(w / 64)` of them |
| Report.FirstFailure | ggoled_lib/src/lib.rs:232-235 | the number of sends that succeed before the first failing one; every earlier send succeeded |
| Report.SendReports | ggoled_lib/src/lib.rs:230-237 | one encoded report per chunk is sent, in order, up to and including the first failing send; the result is an error exactly when a send failed |
| Report.SendAll | ggoled_lib/src/lib.rs:232-235 | the reports of the drawables, in order, up to and including the first failing send; `Pass` exactly when no send failed, the I/O error otherwise |
| Hid.FilterExact | ggoled_lib/src/lib.rs:42-53 | an interface survives the filter exactly when vendor, product and interface match |
| Hid.Position | ggoled_lib/src/lib.rs:99 | `position` finds the first descriptor whose byte 1 is the given value, or reports that none has it |
| Hid.SwapRemovePermutes | ggoled_lib/src/lib.rs:102-108 | `swap_remove(i)` takes out exactly element i and keeps the others |
| Hid.Select | ggoled_lib/src/lib.rs:38-110 | defines `connect`'s selection: the count checks, the shared-path branch, the open and descriptor errors, then `Roles`; specified by the `Select*` lemmas below |
| Hid.Roles | ggoled_lib/src/lib.rs:99-110 | defines the role assignment: `position` of 0xc0, `swap_remove`, then `position` of 0x00 in what remains; specified by the `Roles*` lemmas |
| Hid.SelectCounts | ggoled_lib/src/lib.rs:56-62 | 0, 1 or more than 2 matches fail with "No matching", "Too few" or "Too many"; success needs exactly two |
| Hid.SelectSharedPath | ggoled_lib/src/lib.rs:65-72 | two matches on one path use that interface for both roles, or fail to connect |
| Hid.SelectRoles | ggoled_lib/src/lib.rs:77-110 | with two separate interfaces, selection succeeds exactly when one descriptor has 0xc0 in byte 1 and the other 0x00; the 0xc0 one is the screen; with no 0xc0 it fails "No OLED device found" |
| Hid.RolesFirstOled | ggoled_lib/src/lib.rs:99-110 | when the first descriptor is the screen, the second must have 0x00 or "No info device found" |
| Hid.RolesSecondOled | ggoled_lib/src/lib.rs:99-110 | when only the second descriptor is the screen, the first must have 0x00 or "No info device found" |
| Hid.RolesNoOled | ggoled_lib/src/lib.rs:99-101 | with no 0xc0 descriptor, the result is "No OLED device found" |
| Hid.SelectOrderFree | ggoled_lib/src/lib.rs:99-110 | swapping the order in which the two interfaces are enumerated does not change the result |
| Hid.Device.constructor | ggoled_lib/src/lib.rs:113-118 | the device holds both interfaces and a 128×64 screen |
| Hid.Device.Connect | ggoled_lib/src/lib.rs:38-119 | fails with the selection's error, or returns a fresh 128×64 device holding the selected screen and info interfaces |
| Hid.Device.Reconnect | ggoled_lib/src/lib.rs:156-159 | on failure the device is unchanged and the error is returned; on success it holds the newly selected interfaces |
| Hid.Device.Draw | ggoled_lib/src/lib.rs:230-237 | the reports sent and the outcome are those of `SendReports` on the 128×64 screen |
| Hid.BrightnessReport | ggoled_lib/src/lib.rs:240-249 | below 1 fails "brightness too low", above 10 fails "brightness too high", and otherwise gives the report 0x06 0x85 value |
| Hid.Device.SetBrightness | ggoled_lib/src/lib.rs:240-252 | out of range: nothing is written and the range error is returned; in range: the brightness report is written and the write outcome is returned |
| Hid.Device.ReturnToUi | ggoled_lib/src/lib.rs:255-261 | writes 0x06 0x95 followed by 62 zero bytes and returns the write outcome |
| Hid.ParseEvent | ggoled_lib/src/lib.rs:263-281 | defines `parse_event` on a 64-byte buffer; specified by `ParseEventCases` |
| Hid.ParseEventCases | ggoled_lib/src/lib.rs:263-281 | an event is recognised exactly when byte 0 is 7 and byte 1 is 0x25, 0xb5 or 0xb7; it is then Volume(0x38 minus byte 2, and 0 once byte 2 exceeds 0x38), HeadsetConnection(byte 4 == 8) or Battery(byte 2, byte 3) |
| Hid.Device.PollEvent | ggoled_lib/src/lib.rs:284-289 | an I/O error when setting blocking mode or reading fails; otherwise the parse of the 64-byte buffer, so an empty read gives no event |
| Hid.Events | ggoled_lib/src/lib.rs:294-304 | defines what the `get_events` loop collects from a sequence of reads; specified by `EventsAppend` and `EventsStop`, and `GetEvents` is proved equal to it |
| Hid.EventsAppend | ggoled_lib/src/lib.rs:295-303 | the events of reads that all return data come before those of later reads, in read order |
| Hid.EventsStop | ggoled_lib/src/lib.rs:297-299 | reading stops at the first zero-length read, and a failing read fails the whole call |
| Hid.Device.GetEvents | ggoled_lib/src/lib.rs:292-305 | the read loop returns the recognised events in read order up to the first empty read, or the I/O error |
| LegacyHid.FindFirst | src/gg.rs:31-37 | `find`: the index of the first interface with vendor 0x1038, product 0x12cb or 0x12e0 and interface 4, or none |
| LegacyHid.LegacySelectChoice | src/gg.rs:31-42 | the first matching interface decides: it is used if it opens, otherwise "Failed to open device"; "Device not found" exactly when nothing matches |
| LegacyHid.LegacyMatchesNewer | src/gg.rs:32-36 | the older filter accepts a subset of what the newer one does, and misses only the two Xbox product ids |
| LegacyHid.LegacyDevice.constructor | src/gg.rs:44-48 | the device holds the interface and a 128×64 screen |
| LegacyHid.LegacyDevice.Connect | src/gg.rs:29-49 | fails with the older selection's error, or returns a fresh device holding the chosen interface |
| LegacyHid.LegacyDevice.Draw | src/gg.rs:119-126 | the same chunked sends, stopping at the first failure, as the newer `draw` |
| Layers.Placements | ggoled_draw/src/lib.rs:254-288 | a valid layer's blits are of valid bitmaps: an image once at its place plus the shift, an animation its current frame or nothing, a scroll its `dupes + 1` copies |
| Layers.Render | ggoled_draw/src/lib.rs:251-295 | composing the layers in order keeps the screen valid and its size; what each pixel becomes is stated by `RenderAt` |
| Layers.PaintAt | ggoled_draw/src/lib.rs:251-295 | after transparent blits, a pixel is lit exactly when it was lit before or some blitted bitmap lights it |
| Layers.RenderAt | ggoled_draw/src/lib.rs:251-295 | composition is a union: a screen pixel is on exactly when it was on before or some layer, at its place and shifted, lights it |
| Layers.ScrollStep | ggoled_draw/src/lib.rs:289-292 | defines the scroll step: one to the left, then back by `scroll_w` once `-scroll_w` is reached; specified by `ScrollStepRange` and `ScrollPeriodic` |
| Layers.ScrollStepRange | ggoled_draw/src/lib.rs:289-292 | one step keeps the scroll offset in (-scroll_w, 0] |
| Layers.ScrollPeriodic | ggoled_draw/src/lib.rs:289-292 | from 0, after k steps the offset is `-(k mod scroll_w)`, so it returns to 0 every `scroll_w` steps |
| Layers.ScrollFillsScreen | ggoled_draw/src/lib.rs:278-288 | from any offset in range, the `dupes + 1` copies reach past the right edge of the screen |
| Layers.AnimStep | ggoled_draw/src/lib.rs:262-275 | the tick count moves by at most one, and `next_update` never goes back |
| Layers.AnimStepMoves | ggoled_draw/src/lib.rs:262-275 | ticks advance exactly when there are frames and the layer follows the frame rate or its update is due; `next_update` moves only when a due, non-`follow_fps` frame has a `Some` delay, and then by exactly that delay |
| Layers.FollowCycles | ggoled_draw/src/lib.rs:262-266 | whatever the clock, after being drawn at any sequence of times a `follow_fps` animation has moved on one frame per draw, and shows frame `(ticks + k) mod n` at its position plus the shift |
| Layers.Advance | ggoled_draw/src/lib.rs:255-293 | moving a layer's state on never changes the layer itself |
| Layers.Advanced | ggoled_draw/src/lib.rs:253 | after a frame, the map has the same ids in the same order with the same layers |
| Layers.AdvancedKeepsImages | ggoled_draw/src/lib.rs:255 | an image layer's state does not change |
| Layers.CenterAxis | ggoled_draw/src/lib.rs:388-393 | along one axis, a fitting extent lies inside with margins that differ by at most one; a larger one overhangs both sides |
| Layers.CenterBalanced | ggoled_draw/src/lib.rs:388-393 | `center_bitmap` puts a bitmap that fits inside the screen with balanced margins on both axes, and lets a wider one overhang both sides |
| Layers.Grey | ggoled_draw/src/lib.rs:85 | the grey level `(r+g+b)/3` is at most 255 |
| Layers.FromImageAt | ggoled_draw/src/lib.rs:79-88 | pixel (x, y) comes from image pixel `x + y*w` (row-major order) |
| Layers.ThresholdMonotone | ggoled_draw/src/lib.rs:85 | raising the threshold never lights more pixels, and threshold 0 lights all of them |
| LayerStore.Remove | ggoled_draw/src/lib.rs:413-415 | `BTreeMap::remove`: exactly the entries with other ids remain, still sorted |
| LayerStore.DrawLayerOnto | ggoled_draw/src/lib.rs:255-293 | one layer's blits turn the screen into the painted screen, and its state moves on as `Advance` says |
| LayerStore.BlitStrip | ggoled_draw/src/lib.rs:281-288 | the `0..=dupes` loop paints the copies of the scroll strip |
| LayerStore.LayerMap.constructor | ggoled_draw/src/lib.rs:352 | the shared map starts empty |
| LayerStore.LayerMap.RenderOnto | ggoled_draw/src/lib.rs:252-295 | the `iter_mut` loop renders every layer in id order and leaves every state moved on |
| LayerStore.TextLayer | ggoled_draw/src/lib.rs:433-451 | defines line `i`'s layer: its y from `y` or the centred block, a scroll when at least as wide as the screen, else an image at `x` or centred; specified by `TextPlacement` |
| LayerStore.TextPlacement | ggoled_draw/src/lib.rs:433-451 | lines are `line_height` apart; a line at least as wide as the screen scrolls; a centred block that fits sits inside with balanced margins; a fitting line with no `x` is centred |
| LayerStore.DrawDevice.constructor | ggoled_draw/src/lib.rs:351-370 | empty map, counter 0, the device's size |
| LayerStore.DrawDevice.AddLayer | ggoled_draw/src/lib.rs:394-412 | the id is the counter plus one, new to the map and never 0; the entry goes last with a fresh state |
| LayerStore.DrawDevice.RemoveLayer | ggoled_draw/src/lib.rs:413-415 | exactly the entry with that id goes, and ids stay sorted and unique |
| LayerStore.DrawDevice.RemoveLayers | ggoled_draw/src/lib.rs:416-421 | exactly the entries named in the list go |
| LayerStore.DrawDevice.ClearLayers | ggoled_draw/src/lib.rs:422-424 | the map is empty and the store stays sorted, valid and within the id counter |
| LayerStore.DrawDevice.AddText | ggoled_draw/src/lib.rs:428-454 | one layer per rendered line, placed by the text rule; the ids are consecutive and returned in line order |
| DrawThread.ShiftCycleIsSmall | ggoled_draw/src/lib.rs:184-195 | the nine offsets start at (0, 0), each is within one pixel of it, and each move of the cycle, the wrap included, is at most one pixel per axis |
| DrawThread.NextShift | ggoled_draw/src/lib.rs:243 | `(i + 1) % 9` stays inside the cycle |
| DrawThread.ShiftOffset | ggoled_draw/src/lib.rs:239-247 | no offset under `Off`, and never more than a pixel on either axis |
| DrawThread.DrainStop | ggoled_draw/src/lib.rs:218-225 | a Stop anywhere in the drained commands is remembered |
| DrawThread.DrainLastPlay | ggoled_draw/src/lib.rs:218-225 | the last Play or Pause of a drain decides `playing` |
| DrawThread.DrainNoPlay | ggoled_draw/src/lib.rs:218-225 | without Play or Pause, `playing` is unchanged |
| DrawThread.DrainLastMode | ggoled_draw/src/lib.rs:218-225 | the last `SetShiftMode` of a drain decides the mode |
| DrawThread.DrainNoMode | ggoled_draw/src/lib.rs:218-225 | without a `SetShiftMode`, the mode is unchanged |
| DrawThread.Drain | ggoled_draw/src/lib.rs:218-225 | defines the command drain: each command applied in order; specified by the `Drain*` lemmas |
| DrawThread.Reconnect | ggoled_draw/src/lib.rs:228-234 | defines the reconnect stage; its effect on a pass is stated by the `StepReconnect*` lemmas |
| DrawThread.Shift | ggoled_draw/src/lib.rs:239-248 | defines the shift stage under each mode; its effect on a pass is stated by `StepShift` and `StepShiftsWhenDue` |
| DrawThread.Send | ggoled_draw/src/lib.rs:298-310 | defines the send stage; its effect on a pass is stated by `StepSend`, `StepSendsWhenDue` and `StepDisconnectCause` |
| DrawThread.Poll | ggoled_draw/src/lib.rs:315-324 | defines the poll stage; its effect on a pass is stated by `StepDisconnect` and `StepDisconnectCause` |
| DrawThread.Step | ggoled_draw/src/lib.rs:215-329 | defines one pass: drain, reconnect, and, when connected and playing, shift, render, send and move the layers on, then poll; specified by the `Step*` lemmas, and `RenderThread.Tick` is proved equal to it |
| DrawThread.StepShift | ggoled_draw/src/lib.rs:237-248 | the shift index stays below 9 and moves at most one place per pass, only under `Simple`, only in a rendering pass and only once 90 s have passed |
| DrawThread.StepShiftsWhenDue | ggoled_draw/src/lib.rs:237-246 | conversely, a rendering pass under `Simple` at least 90 s after the last move moves the index one place and records the time |
| DrawThread.StepReconnectAttempt | ggoled_draw/src/lib.rs:228-234 | a reconnect is attempted only while disconnected and a second after the last attempt, and the attempt time moves whatever the outcome |
| DrawThread.StepReconnectEvent | ggoled_draw/src/lib.rs:228-234 | the pass's events start with `DeviceReconnected` exactly when a reconnect was attempted and succeeded |
| DrawThread.StepReconnectOnce | ggoled_draw/src/lib.rs:228-234 | `DeviceReconnected` never appears anywhere but at the head of a pass's events |
| DrawThread.StepDisconnect | ggoled_draw/src/lib.rs:302-320 | at most one `DeviceDisconnected` is reported per pass, and after it the loop is disconnected |
| DrawThread.StepDisconnectCause | ggoled_draw/src/lib.rs:302-320 | `DeviceDisconnected` is reported exactly when the device was connected and that pass's `draw` or `get_events` failed |
| DrawThread.StepSend | ggoled_draw/src/lib.rs:237-310 | only a pass that is connected and playing renders or moves layer states on; `prev_screen` changes only to a screen sent by a successful `draw`; an unchanged screen is re-sent only after a second |
| DrawThread.StepSendRecords | ggoled_draw/src/lib.rs:298-310 | a pass that sends sets `last_frame_time` to its frame time, whether the draw succeeds or not; a pass that sends nothing keeps it; a successful draw makes the screen sent the new `prev_screen` |
| DrawThread.StepSendsWhenDue | ggoled_draw/src/lib.rs:298-300 | conversely, a rendering pass whose screen differs from `prev_screen`, or that comes a second or more after the last send, sends that screen |
| DrawThread.StepScreen | ggoled_draw/src/lib.rs:251-302 | the screen sent is `width`×`height`, and a pixel is lit exactly when some layer, shifted by the current offset, lights it |
| DrawThread.StepStop | ggoled_draw/src/lib.rs:327-329 | the loop ends after this pass, with rendering and polling done, exactly when a Stop was queued |
| DrawThread.RenderThread.constructor | ggoled_draw/src/lib.rs:206-214 | the initial locals: an empty previous screen, paused, shift 0 and `Off`, connected, all timestamps at the start time |
| DrawThread.RenderThread.Tick | ggoled_draw/src/lib.rs:215-335 | one pass of the loop updates the locals and the layer map, and yields the events, the screen sent and the stop flag, all as `Step` gives them |
| DrawThread.RenderThread.DrainCommands | ggoled_draw/src/lib.rs:217-225 | the `try_recv` loop applies the commands in order |
| DrawThread.RenderThread.ReconnectPhase | ggoled_draw/src/lib.rs:228-234 | the reconnect stage as `Reconnect` gives it |
| DrawThread.RenderThread.ShiftFrame | ggoled_draw/src/lib.rs:239-248 | the shift stage and the offset it yields |
| DrawThread.RenderThread.SendScreen | ggoled_draw/src/lib.rs:298-310 | the send stage as `Send` gives it |
| DrawThread.RenderThread.RenderFrame | ggoled_draw/src/lib.rs:237-312 | shift, render the layers onto a blank screen, move their states on, and send |
| DrawThread.RenderThread.PollPhase | ggoled_draw/src/lib.rs:315-324 | while connected, the polled events are forwarded, or a failed poll disconnects |
| Cli.ParseIsize | ggoled_cli/src/main.rs:24 | `str::parse::<isize>`: a value is always within the 64-bit `isize` range, and the string starts with a digit or a sign |
| Cli.ParseShow | ggoled_cli/src/main.rs:24 | the decimal form of every integer parses back to itself when it fits in `isize` and is refused otherwise, by both the integer parser and `from_str` |
| Cli.LowerIdempotent | ggoled_cli/src/main.rs:25 | after `to_lowercase` (on ASCII letters) no capital letter is left, every other character is kept, and lowercasing again changes nothing |
| Cli.FromStr | ggoled_cli/src/main.rs:21-32 | `Coord(n)` exactly when the string parses as an `isize` n; otherwise `Center` exactly when it lowercases to "center" or "c"; any other string fails "not a valid position" |
| Cli.FromStrRefuses | ggoled_cli/src/main.rs:24-29 | "+7" is `Coord(7)`; a leading space, a lone sign and "centre" are refused |
| Cli.FromStrCenter | ggoled_cli/src/main.rs:25-26 | every mix of cases of "center" and of "c" is `Center` |
| Cli.ToOptionRoundTrip | ggoled_cli/src/main.rs:33-40 | `to_option` is a bijection onto `Option<isize>`, and only `Center` maps to `None` |
| Cli.StripCR | ggoled_cli/src/main.rs:167 | no `'\r'` is left; a line without one is unchanged; no character is added; a one-character line is kept unless it is `'\r'` |
| Cli.StripCRAppend | ggoled_cli/src/main.rs:167 | removing `'\r'` from `a + b` gives the result for `a` followed by that for `b`, so with the one-character cases every other character stays, in order |
| Cli.GroupStdin | ggoled_cli/src/main.rs:165-187 | the loop hands out exactly the texts of the grouping rule, in order |
| Cli.Feed | ggoled_cli/src/main.rs:166-179 | defines one stdin line's effect: a delimiter line (after `'\r'` removal) flushes the collected lines as a text, any other line is collected; specified by `FedAppend`, `ScreensSplit` and `DelimiterFirst` |
| Cli.FedAppend | ggoled_cli/src/main.rs:166-179 | the grouping state after `a + b` is that after `a` with `b` then fed in |
| Cli.ScreensWithoutDelimiter | ggoled_cli/src/main.rs:165-187 | with no delimiter line, stdin is one text (the stripped lines joined by `'\n'`), or none when it is empty |
| Cli.ScreensSplit | ggoled_cli/src/main.rs:168-175 | a delimiter line flushes the lines collected so far as one text, even an empty one, and grouping starts afresh after it |
| Cli.DelimiterFirst | ggoled_cli/src/main.rs:168-175 | a lone delimiter line gives one empty text |
| Cli.AnimFrames | ggoled_cli/src/main.rs:211-227 | framerate 0 fails "Framerate must be non-zero", no paths fails "No image paths", and otherwise there is one shown frame per decoded frame |
| Cli.FlattenAppend | ggoled_cli/src/main.rs:217-227 | the frames of several paths are those of each path in turn |
| Cli.AnimFramesAt | ggoled_cli/src/main.rs:216-227 | frame q of path p shows its bitmap for `1 s / framerate`, or else its own delay, or else 1 s |
| Cli.AnimFramesRate | ggoled_cli/src/main.rs:216 | with a framerate every frame waits `1 s / f`, which is zero exactly when f exceeds 10^9 |
| Cli.AnimPlaceAsWritten | ggoled_cli/src/main.rs:233-236 | defines the default position as written: `cx` and `cy` both `(width - bitmap.w) / 2`, truncating, and a given coordinate wins over either; specified by `AnimPlaceVersusPlace` |
| Cli.AnimPlaceCounterexample | ggoled_cli/src/main.rs:233-236 | as written, a centred 16×16 frame on the 128×64 screen is drawn at y = 56 and runs 8 rows off the bottom; centred properly it sits at y = 24 |
| Cli.Place | src/main.rs:261-268 | a `Coord` passes through; `Center` never hides the whole bitmap and, for a bitmap that fits, leaves margins that differ by at most one, on each axis against its own screen size |
| Cli.AnimPlaceVersusPlace | ggoled_cli/src/main.rs:233-236 | the x as written is the centred x; the y as written is the centred one for a given coordinate or when width and height exceed the bitmap by the same amount; a centred y as written equals the centred x |
| Cli.AnimationSchedule | ggoled_cli/src/main.rs:228-254 | `passes` runs draw every frame once per pass, in order, each with its delay and at the position the code as written computes (`AnimPlaceAsWritten`, so a centred y is the centred x); `frame_idx` counts the draws |
| LegacyCli.LegacyFromImage | src/main.rs:17-26 | the image's size, with a pixel on exactly when its grey level reaches the `usize` threshold |
| LegacyCli.LegacyFromImageAgrees | src/main.rs:23 | below 256 the older threshold gives the same bitmap as the newer `u8` one |
| LegacyCli.LegacyFromImageDark | src/main.rs:23 | above 255 no pixel is lit |
| LegacyCli.DrawTarget | src/main.rs:269-275 | what is drawn is a valid bitmap |
| LegacyCli.DrawTargetAt | src/main.rs:260-276 | with `no_clear` the bitmap is drawn as it is at its place; otherwise a screen-sized bitmap is drawn at (0, 0), where a pixel is on exactly when the placed bitmap covers it with a lit pixel |
| LegacyCli.DrawWithArgs | src/main.rs:260-276 | the position is computed, composed on a fresh blank screen unless `no_clear`, and the reports sent are those of drawing that target |

## Left out

- hidapi itself is not modelled: enumeration, opening, descriptors,
  blocking mode, reads, writes and feature reports. Each call's outcome is
  a parameter. `dump_devices` (`ggoled_lib/src/lib.rs:122-153`) only
  prints, so it is left out.
- Hid.Select: the shared-path branch opens the same interface twice. Both
  opens share one `opens` flag here, so a first open that succeeds
  followed by a second that fails is not modelled.
- ConnectSafe: a descriptor shorter than two bytes makes `desc[1]` panic.
  Selection requires this not to happen.
- Threads, `mpsc` channels, `Arc<Mutex<..>>`, `join`, `Drop`, `destroy`,
  `stop`, `try_event`, `poll_event` of `DrawDevice`, and `set_shift_mode`,
  `play` and `pause` are channel sends. The draw thread's commands arrive
  as a sequence (`Inputs.cmds`), and its events are an output sequence.
  While a pass runs, the layer map is a `LayerMap` object that no one else
  touches.
- `spin_sleep` and `frame_delay` in the draw thread are timing only and
  change no state. The "fell behind" message of `anim` is output. Both
  are left out. The sleeps of `anim` are not only timing: see the
  `Cli.AnimationSchedule` line below.
- The text renderer is an oracle. `TextRenderer` (`ggoled_draw/src/lib.rs:18-77`)
  uses font layout and floating point, so `AddText` takes the rendered
  lines and the line height as parameters.
- Image decoding is not modelled: `decode_frames`, GIF frame delays,
  `load_from_memory`, `from_dynimage`. These are library calls. Decoded
  frames are parameters, and only the threshold rule is modelled.
- The clap argument structs are left out, along with the `Clear`, `Fill`
  and `Img` commands (`ggoled_cli/src/main.rs:151-152`, `191-204`), which
  only call `draw` on a filled or decoded bitmap.
- The older `anim` loop (`src/main.rs:352-374`) calls `DrawWithArgs` once
  per frame. It is not modelled as a loop of its own.
- Cli.AnimationSchedule: `loops == 0` loops forever. The method models any
  finite number of passes, so the endless case is its unbounded family.
- Cli.AnimationSchedule: the schedule assumes that every draw succeeds and
  that no draw overruns its frame's delay. In the source, a failed draw
  panics at `dev.draw(..).unwrap()` (`ggoled_cli/src/main.rs:237`). A draw
  that takes longer than a positive delay panics at
  `next_frame.duration_since(SystemTime::now()).unwrap()` (`ggoled_cli/src/main.rs:240`;
  the same at `src/main.rs:360`). Either panic ends `anim` after fewer than
  `passes * |shown|` draws, and the model does not capture that early end.
- LayerStore.DrawDevice.AddText: `Instant::now()` for each new layer is a
  single `now` parameter.
- Counters (`layer_counter`, `ticks`, `frame_idx`, stride arithmetic) are
  unbounded. `usize` overflow after 2^64 steps is not modelled.
- Report.CreateReport: the `[u8; 1024]` array value is a sequence. The
  shift `(pixel as u8) << (ri % 8)` is written as the mask it equals (see
  `Report.ShiftIsMask`).
- Report.SendReports and Hid.Device.Draw require `OffsetFits`, because
  `w -= (-x) as usize` panics when the offset hides more than the whole
  bitmap. LegacyCli.DrawWithArgs requires the same through `Drawable`.
- Bitmaps.Bitmap.Crop requires `CropInBounds`, because the two `assert!`s
  panic otherwise.
- Hid.ParseEventCases: `parse_event` takes a `[u8; 64]` array, so the
  buffer is always 64 bytes. A short read leaves the rest of the zeroed
  buffer (`Hid.Buffer`).
- Cli.ParseIsize: `isize` is taken as 64 bits.
- Cli.Lower: only ASCII letters are lowered. No other character lowercases
  to a letter of "center" or "c", so the comparison comes out the same.
- The `expect` panics when reading stdin fails are left out. The lines
  read are a parameter.
- Layers.AnimStep uses a frame delay of `None` as the code does: the tick
  moves on and `next_update` stays.

## Findings

| source | as written | input that shows it | evidently intended | confidence | as-written member | corrected member |
|---|---|---|---|---|---|---|
| ggoled_lib/src/bitmap.rs:22-26 (the same at src/bitmap.rs:21-25) | the loop variables `x` and `y` shadow the offset parameters, so `crop` always copies from the top-left corner | `Raster(2, 1, [off, on])` cropped at (1, 0) to 1×1 gives `[off]` | pixel (i, j) of the crop is source pixel (x+i, y+j) | high (not executed) | Bitmaps.CropCounterexample | Bitmaps.WindowAt |
| ggoled_cli/src/main.rs:234 | the default y of `anim` is `(width - bitmap.w) / 2`, a copy of the x line | a 16×16 frame on the 128×64 screen is drawn at y = 56, so 8 rows fall off the bottom | `(height - bitmap.h) / 2`, as `draw_with_args` in src/main.rs:265-268 does | high (not executed) | Cli.AnimationSchedule, Cli.AnimPlaceCounterexample | Cli.Place |
