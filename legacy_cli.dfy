/** What the older program's front end (`src/main.rs`) does differently from
    the newer one: the image threshold is a `usize`, and `draw_with_args`
    either draws the bitmap where it is placed or first composes it onto a
    blank screen. Its position parser, stdin grouping and `anim` delays are
    those of `Cli`. */
module LegacyCli {
  import opened Common
  import opened Bitmaps
  import opened Layers
  import opened Report
  import opened Cli
  import LegacyBitmaps
  import LegacyHid

  // ---------------------------------------------------------------------
  // Bitmap::from_image

  /** `Bitmap::from_image`: a pixel is on when its grey level reaches the
      threshold, which here is any `usize`. */
  function LegacyFromImage(w: nat, h: nat, pixels: seq<Pixel>, threshold: nat): (r: Raster)
    requires |pixels| == w * h
    ensures r.Valid() && r.w == w && r.h == h
  {
    Raster(w, h, seq(|pixels|, k requires 0 <= k < |pixels| => Grey(pixels[k]) >= threshold))
  }

  /** Below 256 the older threshold behaves exactly as the newer `u8` one. */
  lemma LegacyFromImageAgrees(w: nat, h: nat, pixels: seq<Pixel>, t: byte)
    requires |pixels| == w * h
    ensures LegacyFromImage(w, h, pixels, t as nat) == FromImage(w, h, pixels, t)
  {
    var r := LegacyFromImage(w, h, pixels, t as nat);
    var r' := FromImage(w, h, pixels, t);
    assert forall k :: 0 <= k < |pixels| ==> r.data[k] == r'.data[k];
    assert r.data == r'.data;
  }

  /** Above 255 no pixel is ever on, since a grey level is at most 255. */
  lemma LegacyFromImageDark(w: nat, h: nat, pixels: seq<Pixel>, threshold: nat)
    requires |pixels| == w * h && threshold > 255
    ensures LegacyFromImage(w, h, pixels, threshold) == Filled(w, h, false)
  {
    var r := LegacyFromImage(w, h, pixels, threshold);
    var off := Filled(w, h, false);
    assert forall k :: 0 <= k < |pixels| ==> r.data[k] == off.data[k];
    assert r.data == off.data;
  }

  // ---------------------------------------------------------------------
  // draw_with_args

  datatype DrawArgs = DrawArgs(screenX: DrawPos, screenY: DrawPos, noClear: bool)

  /** What `draw_with_args` hands to `draw`: a bitmap and its offset. */
  datatype Target = Target(image: Raster, x: int, y: int)

  /** With `no_clear` the bitmap itself at its place; otherwise a blank
      screen with the bitmap blitted onto it, at (0, 0). */
  function DrawTarget(width: nat, height: nat, bitmap: Raster, args: DrawArgs): (t: Target)
    requires bitmap.Valid()
    ensures t.image.Valid()
  {
    var p := Place(width, height, bitmap, args.screenX, args.screenY);
    if args.noClear then Target(bitmap, p.0, p.1)
    else Target(Blitted(Filled(width, height, false), bitmap, p.0, p.1, true), 0, 0)
  }

  /** Without `no_clear`, exactly the screen is drawn, from its corner: a
      pixel is on when the placed bitmap covers it with an on pixel, and off
      everywhere else, whatever the screen showed before. With `no_clear` the
      bitmap is drawn unchanged at its place. */
  lemma DrawTargetAt(width: nat, height: nat, bitmap: Raster, args: DrawArgs, px: nat, py: nat)
    requires bitmap.Valid() && px < width && py < height
    ensures var t := DrawTarget(width, height, bitmap, args);
            var p := Place(width, height, bitmap, args.screenX, args.screenY);
            && (args.noClear ==> t == Target(bitmap, p.0, p.1))
            && (!args.noClear ==>
                  && t.x == 0 && t.y == 0 && t.image.w == width && t.image.h == height
                  && (At(t.image, px, py) <==> Covers(bitmap, p.0, p.1, px, py) && At(bitmap, px - p.0, py - p.1)))
  {
    var p := Place(width, height, bitmap, args.screenX, args.screenY);
    LegacyBitmaps.LegacyBlitAt(Filled(width, height, false), bitmap, p.0, p.1, px, py);
    FilledAt(width, height, false, px, py);
  }

  /** The offsets `draw` can take without its width arithmetic underflowing:
      only a coordinate given with `no_clear` can be further left (or up)
      than the bitmap is wide (or tall). */
  predicate Drawable(bitmap: Raster, args: DrawArgs, width: nat, height: nat) {
    var p := Place(width, height, bitmap, args.screenX, args.screenY);
    args.noClear ==> OffsetFits(p.0, bitmap.w) && OffsetFits(p.1, bitmap.h)
  }

  /** `draw_with_args`: composes the target and draws it; `sendOk` are the
      outcomes of the device's sends, and a failed draw is the `unwrap`
      panic. */
  method DrawWithArgs(dev: LegacyHid.LegacyDevice, bitmap: Raster, args: DrawArgs, sendOk: seq<bool>)
    returns (sent: seq<seq<byte>>, res: Outcome)
    requires dev.Valid() && bitmap.Valid() && Drawable(bitmap, args, dev.width, dev.height)
    ensures var t := DrawTarget(dev.width, dev.height, bitmap, args);
            var rs := DrawReports(t.image, t.x, t.y, dev.width, dev.height);
            var k := FirstFailure(sendOk, |rs|);
            && sent == rs[..Min(k + 1, |rs|)]
            && (res == Pass <==> k == |rs|)
            && (res != Pass ==> res == Fail(IoError))
  {
    ghost var t := DrawTarget(dev.width, dev.height, bitmap, args);
    ghost var p := Place(dev.width, dev.height, bitmap, args.screenX, args.screenY);
    var x := match args.screenX
      case Coord(v) => v
      case Center => TruncDiv(dev.width as int - bitmap.w as int, 2);
    var y := match args.screenY
      case Coord(v) => v
      case Center => TruncDiv(dev.height as int - bitmap.h as int, 2);
    assert x == p.0 && y == p.1;
    if args.noClear {
      assert t == Target(bitmap, x, y);
      sent, res := dev.Draw(bitmap, x, y, sendOk);
    } else {
      var screen := new LegacyBitmaps.Bitmap(dev.width, dev.height, false);
      screen.Blit(bitmap, x, y);
      assert screen.Value() == t.image;
      sent, res := dev.Draw(screen.Value(), 0, 0, sendOk);
    }
  }
}
