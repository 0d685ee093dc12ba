/** The layers of the draw engine (`ggoled_draw/src/lib.rs`) as values: what
    each layer paints in one frame, how its animation and scroll state moves
    on, the screen composed from a list of layers, the centring helper and
    the image threshold. Time is an integer number of nanoseconds. */
module Layers {
  import opened Common
  import opened Bitmaps

  const SECOND: nat := 1_000_000_000
  /** Blank columns between the copies of a scrolling bitmap. */
  const MARGIN: nat := 30

  /** One frame of an animation, with its delay if the image format gives one. */
  datatype Frame = Frame(bitmap: Raster, delay: Option<nat>)

  datatype DrawLayer =
    | Image(bitmap: Raster, x: int, y: int)
    | Animation(frames: seq<Frame>, x: int, y: int, followFps: bool)
    | Scroll(bitmap: Raster, y: int)

  /** `DrawLayerState`: a layer with its `AnimState` (`ticks`,
      `next_update`) and `ScrollState` (`x`). */
  datatype LayerState = LayerState(layer: DrawLayer, ticks: nat, nextUpdate: int, scrollX: int)

  /** An entry of the `BTreeMap<LayerId, DrawLayerState>`. */
  datatype Entry = Entry(id: nat, state: LayerState)

  /** Every bitmap a layer can paint is a well-formed raster. */
  ghost predicate LayerValid(l: DrawLayer) {
    match l
    case Image(b, _, _) => b.Valid()
    case Animation(frames, _, _, _) => forall k :: 0 <= k < |frames| ==> frames[k].bitmap.Valid()
    case Scroll(b, _) => b.Valid()
  }

  ghost predicate EntriesValid(es: seq<Entry>) {
    forall k :: 0 <= k < |es| ==> LayerValid(es[k].state.layer)
  }

  // ---------------------------------------------------------------------
  // What a layer paints

  /** One transparent blit of `bitmap` at (x, y). */
  datatype Placement = Placement(bitmap: Raster, x: int, y: int)

  ghost predicate PlacementsValid(ps: seq<Placement>) {
    forall k :: 0 <= k < |ps| ==> ps[k].bitmap.Valid()
  }

  /** Spacing of the copies of a scrolling bitmap. */
  function ScrollWidth(b: Raster): (sw: nat)
    ensures sw > 0
  {
    b.w + MARGIN
  }

  /** How many copies beyond the first a scrolling bitmap gets on a screen
      `width` pixels wide. */
  function Dupes(b: Raster, width: nat): nat {
    1 + width / ScrollWidth(b)
  }

  /** The blits of one layer in one frame, shifted by (sx, sy): an image
      once, an animation its current frame (nothing if it has no frames), a
      scroll `Dupes + 1` copies `ScrollWidth` apart from its scroll offset. */
  function Placements(st: LayerState, width: nat, sx: int, sy: int): (ps: seq<Placement>)
    ensures LayerValid(st.layer) ==> PlacementsValid(ps)
  {
    match st.layer
    case Image(b, x, y) => [Placement(b, x + sx, y + sy)]
    case Animation(frames, x, y, _) =>
      if frames == [] then [] else [Placement(frames[st.ticks % |frames|].bitmap, x + sx, y + sy)]
    case Scroll(b, y) => Strip(b, st.scrollX, ScrollWidth(b), Dupes(b, width) + 1, sx, y + sy)
  }

  /** `n` copies of `b`, `sw` apart from `start`, shifted right by `sx`. */
  function Strip(b: Raster, start: int, sw: nat, n: nat, sx: int, y: int): (ps: seq<Placement>)
    ensures |ps| == n && forall i :: 0 <= i < n ==> ps[i] == Placement(b, start + i * sw + sx, y)
  {
    seq(n, i => Placement(b, start + i * sw + sx, y))
  }

  /** Placement `p` lights screen pixel (px, py). */
  ghost predicate Lights(p: Placement, px: int, py: int)
    requires p.bitmap.Valid()
  {
    Covers(p.bitmap, p.x, p.y, px, py) && At(p.bitmap, px - p.x, py - p.y)
  }

  /** `screen` after the transparent blits `ps`, in order. */
  function Paint(screen: Raster, ps: seq<Placement>): (r: Raster)
    requires screen.Valid() && PlacementsValid(ps)
    ensures r.Valid() && r.w == screen.w && r.h == screen.h
    decreases |ps|
  {
    if ps == [] then screen
    else
      var p := ps[|ps| - 1];
      Blitted(Paint(screen, ps[..|ps| - 1]), p.bitmap, p.x, p.y, false)
  }

  /** A painted pixel is on exactly when it was on before or some blit lights
      it: transparent blits only add pixels, whatever their order. */
  lemma {:induction false} PaintAt(screen: Raster, ps: seq<Placement>, px: nat, py: nat)
    requires screen.Valid() && PlacementsValid(ps) && px < screen.w && py < screen.h
    ensures At(Paint(screen, ps), px, py) <==> At(screen, px, py) || exists k :: 0 <= k < |ps| && Lights(ps[k], px, py)
  {
    if ps != [] {
      var n := |ps| - 1;
      var front := ps[..n];
      var p := ps[n];
      PaintAt(screen, front, px, py);
      BlittedAt(Paint(screen, front), p.bitmap, p.x, p.y, false, px, py);
      if exists k :: 0 <= k < |ps| && Lights(ps[k], px, py) {
        var k :| 0 <= k < |ps| && Lights(ps[k], px, py);
        if k < n {
          assert front[k] == ps[k];
        }
      }
      if exists k :: 0 <= k < |front| && Lights(front[k], px, py) {
        var k :| 0 <= k < |front| && Lights(front[k], px, py);
        assert ps[k] == front[k];
      }
    }
  }

  /** The screen composed from `es` in order, each layer shifted by (sx, sy). */
  function Render(screen: Raster, es: seq<Entry>, width: nat, sx: int, sy: int): (r: Raster)
    requires screen.Valid() && EntriesValid(es)
    ensures r.Valid() && r.w == screen.w && r.h == screen.h
    decreases |es|
  {
    if es == [] then screen
    else Paint(Render(screen, es[..|es| - 1], width, sx, sy), Placements(es[|es| - 1].state, width, sx, sy))
  }

  /** Some blit of layer `st` lights screen pixel (px, py). */
  ghost predicate LayerLights(st: LayerState, width: nat, sx: int, sy: int, px: int, py: int)
    requires LayerValid(st.layer)
  {
    var ps := Placements(st, width, sx, sy);
    exists k :: 0 <= k < |ps| && Lights(ps[k], px, py)
  }

  /** Composition is a union: a pixel of the rendered screen is on exactly
      when it was on before or one of the layers lights it. */
  lemma {:induction false} RenderAt(screen: Raster, es: seq<Entry>, width: nat, sx: int, sy: int, px: nat, py: nat)
    requires screen.Valid() && EntriesValid(es) && px < screen.w && py < screen.h
    ensures At(Render(screen, es, width, sx, sy), px, py) <==>
            At(screen, px, py) || exists i :: 0 <= i < |es| && LayerLights(es[i].state, width, sx, sy, px, py)
  {
    if es != [] {
      var n := |es| - 1;
      var front := es[..n];
      RenderAt(screen, front, width, sx, sy, px, py);
      PaintAt(Render(screen, front, width, sx, sy), Placements(es[n].state, width, sx, sy), px, py);
      assert forall i :: 0 <= i < n ==> front[i] == es[i];
    }
  }

  // ---------------------------------------------------------------------
  // How the per-layer state moves on after a rendered frame

  /** `scroll.x -= 1`, wrapping by one spacing once it reaches `-sw`. */
  function ScrollStep(x: int, sw: nat): int {
    var x' := x - 1;
    if x' <= -(sw as int) then x' + sw else x'
  }

  /** The scroll offset stays in (-sw, 0]. */
  lemma ScrollStepRange(x: int, sw: nat)
    requires -(sw as int) < x <= 0
    ensures -(sw as int) < ScrollStep(x, sw) <= 0
  {
  }

  /** The scroll offset after `k` rendered frames, starting from 0. */
  function ScrollAfter(k: nat, sw: nat): int {
    if k == 0 then 0 else ScrollStep(ScrollAfter(k - 1, sw), sw)
  }

  /** Starting from 0, the offset after `k` frames is `-(k mod sw)`: it moves
      one pixel left per frame and is back at 0 every `sw` frames. */
  lemma {:induction false} ScrollPeriodic(k: nat, sw: nat)
    requires sw > 0
    ensures ScrollAfter(k, sw) == -(k % sw)
  {
    if k > 0 {
      ScrollPeriodic(k - 1, sw);
      ModNext(k - 1, sw);
    }
  }

  /** Counting up by one steps the remainder up by one, wrapping at `m`. */
  lemma ModNext(j: nat, m: nat)
    requires m > 0
    ensures (j + 1) % m == if j % m == m - 1 then 0 else j % m + 1
  {
    var q, r := j / m, j % m;
    assert j == r + q * m;
    if r == m - 1 {
      IndexDecompose(0, q + 1, m);
      assert j + 1 == 0 + (q + 1) * m;
    } else {
      IndexDecompose(r + 1, q, m);
    }
  }

  /** The copies of a scrolling bitmap leave no gap on screen: from an offset
      in (-sw, 0], the first copy starts at or left of column 0 and the last
      spacing ends right of the screen. */
  lemma ScrollFillsScreen(b: Raster, width: nat, x: int)
    requires -(ScrollWidth(b) as int) < x <= 0
    ensures x + (Dupes(b, width) + 1) * ScrollWidth(b) > width
  {
    var sw := ScrollWidth(b);
    var q := width / sw;
    assert width < (q + 1) * sw;
    assert (Dupes(b, width) + 1) * sw == (q + 1) * sw + sw;
  }

  /** The animation state after a rendered frame: a frameless animation never
      moves; with `follow_fps` the tick counter moves every frame; otherwise
      it moves once `time` reaches `next_update`, which then grows by the
      delay of the frame just drawn if it has one (and stays put if not). */
  function AnimStep(frames: seq<Frame>, followFps: bool, ticks: nat, nextUpdate: int, time: int): (r: (nat, int))
    ensures r.1 >= nextUpdate && (r.0 == ticks || r.0 == ticks + 1)
  {
    if frames == [] then (ticks, nextUpdate)
    else if followFps then (ticks + 1, nextUpdate)
    else if time >= nextUpdate then
      match frames[ticks % |frames|].delay
      case Some(d) => (ticks + 1, nextUpdate + d)
      case None => (ticks + 1, nextUpdate)
    else (ticks, nextUpdate)
  }

  /** The tick counter moves exactly when the animation has frames and it
      follows the frame rate or its next update is due. */
  lemma AnimStepMoves(frames: seq<Frame>, followFps: bool, ticks: nat, nextUpdate: int, time: int)
    ensures var r := AnimStep(frames, followFps, ticks, nextUpdate, time);
            (r.0 == ticks + 1 <==> frames != [] && (followFps || time >= nextUpdate))
            && (r.1 != nextUpdate ==> frames != [] && !followFps && time >= nextUpdate
                                      && frames[ticks % |frames|].delay.Some?)
            && (frames != [] && !followFps && time >= nextUpdate && frames[ticks % |frames|].delay.Some? ==>
                  r.1 == nextUpdate + frames[ticks % |frames|].delay.value)
  {
  }

  /** A layer's state after being drawn at each of `times`, in order. */
  function AdvanceAll(st: LayerState, times: seq<int>): LayerState
    decreases |times|
  {
    if times == [] then st else Advance(AdvanceAll(st, times[..|times| - 1]), times[|times| - 1])
  }

  /** A `follow_fps` animation shows its frames in order, one per rendered
      frame, cycling, whatever the clock says: after being drawn `k` times
      it has moved on `k` frames, and it is drawn at its own position plus
      the shift. */
  lemma {:induction false} FollowCycles(st: LayerState, times: seq<int>, width: nat, sx: int, sy: int)
    requires st.layer.Animation? && st.layer.followFps && st.layer.frames != []
    ensures var r := AdvanceAll(st, times);
            var frames := st.layer.frames;
            && r.layer == st.layer && r.ticks == st.ticks + |times|
            && Placements(r, width, sx, sy)
               == [Placement(frames[(st.ticks + |times|) % |frames|].bitmap, st.layer.x + sx, st.layer.y + sy)]
    decreases |times|
  {
    if times != [] {
      FollowCycles(st, times[..|times| - 1], width, sx, sy);
    }
  }

  /** A layer's state after it has been drawn at time `time`. */
  function Advance(st: LayerState, time: int): (r: LayerState)
    ensures r.layer == st.layer
  {
    match st.layer
    case Image(_, _, _) => st
    case Animation(frames, _, _, followFps) =>
      var a := AnimStep(frames, followFps, st.ticks, st.nextUpdate, time);
      st.(ticks := a.0, nextUpdate := a.1)
    case Scroll(b, _) => st.(scrollX := ScrollStep(st.scrollX, ScrollWidth(b)))
  }

  /** Every layer of the map after a rendered frame; ids and layers stay. */
  function Advanced(es: seq<Entry>, time: int): (r: seq<Entry>)
    ensures |r| == |es|
    ensures forall k :: 0 <= k < |es| ==> r[k].id == es[k].id && r[k].state.layer == es[k].state.layer
  {
    seq(|es|, k requires 0 <= k < |es| => Entry(es[k].id, Advance(es[k].state, time)))
  }

  /** Only the state of animations and scrolls moves: an image layer's entry
      is left exactly as it was. */
  lemma AdvancedKeepsImages(es: seq<Entry>, time: int, k: nat)
    requires k < |es| && es[k].state.layer.Image?
    ensures Advanced(es, time)[k] == es[k]
  {
  }

  // ---------------------------------------------------------------------
  // DrawDevice::center_bitmap

  /** The position that centres `b` on a `width`×`height` screen, with the
      source's truncating `isize` division. */
  function Center(width: nat, height: nat, b: Raster): (c: (int, int)) {
    (TruncDiv(width as int - b.w as int, 2), TruncDiv(height as int - b.h as int, 2))
  }

  /** Centring along one axis of length `n` for an extent `e`: a fitting
      extent lies inside with margins that differ by at most one (the larger
      on the far side); a wider one overhangs both sides, by at most one more
      on the far side. */
  lemma CenterAxis(n: nat, e: nat)
    ensures var c := TruncDiv(n as int - e as int, 2);
            && (e <= n ==> 0 <= c && c + e <= n && 0 <= (n - (c + e)) - c <= 1)
            && (e > n ==> c <= 0 && c + e >= n && 0 <= (c + e - n) - (-c) <= 1)
  {
    TruncHalf(n as int - e as int);
  }

  lemma CenterBalanced(width: nat, height: nat, b: Raster)
    ensures var c := Center(width, height, b);
            && (b.w <= width ==> 0 <= c.0 && c.0 + b.w <= width && 0 <= (width - (c.0 + b.w)) - c.0 <= 1)
            && (b.h <= height ==> 0 <= c.1 && c.1 + b.h <= height && 0 <= (height - (c.1 + b.h)) - c.1 <= 1)
            && (b.w > width ==> c.0 <= 0 && c.0 + b.w >= width)
            && (b.h > height ==> c.1 <= 0 && c.1 + b.h >= height)
  {
    CenterAxis(width, b.w);
    CenterAxis(height, b.h);
  }

  // ---------------------------------------------------------------------
  // bitmap_from_image

  /** An RGBA pixel of a decoded image. */
  datatype Pixel = Pixel(r: byte, g: byte, b: byte, a: byte)

  /** The grey level `(r + g + b) / 3` of a pixel, computed in `usize`. */
  function Grey(p: Pixel): (v: nat)
    ensures v <= 255
  {
    (p.r as nat + p.g as nat + p.b as nat) / 3
  }

  /** `bitmap_from_image`: a pixel is on when its grey level reaches the
      threshold; pixels are taken in the image's row-major order. */
  function FromImage(w: nat, h: nat, pixels: seq<Pixel>, threshold: byte): (r: Raster)
    requires |pixels| == w * h
    ensures r.Valid() && r.w == w && r.h == h
    ensures forall k :: 0 <= k < |pixels| ==> r.data[k] == (Grey(pixels[k]) >= threshold as nat)
  {
    Raster(w, h, seq(|pixels|, k requires 0 <= k < |pixels| => Grey(pixels[k]) >= threshold as nat))
  }

  /** Pixel (x, y) of the bitmap is the threshold test of image pixel (x, y). */
  lemma FromImageAt(w: nat, h: nat, pixels: seq<Pixel>, threshold: byte, x: nat, y: nat)
    requires |pixels| == w * h && x < w && y < h
    ensures x + y * w < |pixels|
    ensures At(FromImage(w, h, pixels, threshold), x, y) == (Grey(pixels[x + y * w]) >= threshold as nat)
  {
    IndexInRange(x, y, w, h);
  }

  /** A higher threshold only turns pixels off; threshold 0 turns all on. */
  lemma ThresholdMonotone(w: nat, h: nat, pixels: seq<Pixel>, t: byte, t': byte, k: nat)
    requires |pixels| == w * h && t <= t' && k < |pixels|
    ensures FromImage(w, h, pixels, t').data[k] ==> FromImage(w, h, pixels, t).data[k]
    ensures FromImage(w, h, pixels, 0).data[k]
  {
  }
}
