/** The older raster of the single-crate program (`src/bitmap.rs`): the same
    layout as `ggoled_lib`'s, but `blit` always overwrites (no transparent
    mode) and there is no derived equality. Its meaning is stated with the
    value-level functions of `Bitmaps`. */
module LegacyBitmaps {
  import opened Bitmaps

  class Bitmap {
    var w: nat
    var h: nat
    var data: seq<bool>

    ghost predicate Valid()
      reads this
    {
      |data| == w * h
    }

    function Value(): Raster
      reads this
    {
      Raster(w, h, data)
    }

    /** `Bitmap::new(w, h, on)`. */
    constructor (w: nat, h: nat, on: bool)
      ensures Valid() && Value() == Filled(w, h, on)
    {
      this.w, this.h := w, h;
      data := seq(w * h, _ => on);
    }

    /** A struct literal `Bitmap { w, h, data }`. */
    constructor FromRaster(r: Raster)
      requires r.Valid()
      ensures Valid() && Value() == r
    {
      w, h, data := r.w, r.h, r.data;
    }

    /** `crop`, as written: the same shadowed loop variables as the newer
        copy, so the offset is ignored. */
    method Crop(x: nat, y: nat, cw: nat, ch: nat) returns (c: Bitmap)
      requires Valid() && CropInBounds(Value(), x, y, cw, ch)
      ensures fresh(c) && c.Valid() && c.Value() == Cropped(Value(), x, y, cw, ch)
    {
      ghost var target := Cropped(Value(), x, y, cw, ch);
      var out: seq<bool> := [];
      for j := 0 to ch
        invariant |out| == j * cw && |out| <= cw * ch
        invariant forall k :: 0 <= k < |out| ==> out[k] == target.data[k]
      {
        ghost var base := |out|;
        MulMono(j + 1, ch, cw);
        for i := 0 to cw
          invariant |out| == base + i && base + cw <= cw * ch
          invariant forall k :: 0 <= k < |out| ==> out[k] == target.data[k]
        {
          CropStep(Value(), x, y, cw, ch, i, j);
          out := out + [data[i + j * w]];
        }
      }
      c := new Bitmap.FromRaster(Raster(cw, ch, out));
    }

    /** `blit`: every covered pixel takes the source pixel; the bounds are not
        expanded. */
    method Blit(other: Raster, x: int, y: int)
      requires Valid() && other.Valid()
      modifies this
      ensures Valid() && Value() == Blitted(old(Value()), other, x, y, true)
    {
      ghost var before := Value();
      for sy := 0 to h
        invariant w == before.w && h == before.h
        invariant BlitProgress(before, other, x, y, true, data, sy * w)
      {
        for sx := 0 to w
          invariant w == before.w && h == before.h
          invariant BlitProgress(before, other, x, y, true, data, sx + sy * w)
        {
          ghost var prev := data;
          BlitPixel(other, x, y, sx, sy);
          BlitAdvance(before, other, x, y, true, prev, data, sx, sy);
        }
        BlitRowDone(before, other, x, y, true, data, sy);
      }
      BlitDone(before, other, x, y, true, data);
    }

    /** The body of `blit`'s inner loop: pixel (sx, sy) takes the source
        pixel over it when the source covers it. */
    method BlitPixel(other: Raster, x: int, y: int, sx: nat, sy: nat)
      requires Valid() && other.Valid() && sx < w && sy < h
      modifies this
      ensures w == old(w) && h == old(h)
      ensures BlitVisited(other, x, y, true, old(data), data, sx + sy * w, sx, sy)
    {
      BlitIndices(Value(), other, x, y, sx, sy);
      var ox := sx - x;
      var oy := sy - y;
      if 0 <= ox < other.w && 0 <= oy < other.h {
        var si := sx + sy * w;
        var oi := ox + oy * other.w;
        data := data[si := other.data[oi]];
      }
    }

    /** `invert`: negates every pixel. */
    method Invert()
      requires Valid()
      modifies this
      ensures Valid() && Value() == Inverted(old(Value()))
    {
      var bits := data;
      data := seq(|bits|, k requires 0 <= k < |bits| => !bits[k]);
    }
  }

  /** The older blit is the opaque blit: covered pixels take the source value
      and every other pixel and both dimensions are kept. */
  lemma LegacyBlitAt(dst: Raster, src: Raster, x: int, y: int, sx: nat, sy: nat)
    requires dst.Valid() && src.Valid() && sx < dst.w && sy < dst.h
    ensures var r := Blitted(dst, src, x, y, true);
            && r.w == dst.w && r.h == dst.h
            && At(r, sx, sy) == if Covers(src, x, y, sx, sy) then At(src, sx - x, sy - y) else At(dst, sx, sy)
  {
    BlittedAt(dst, src, x, y, true, sx, sy);
  }
}
