/** The 1-bit raster of `ggoled_lib`: a width, a height and `w*h` bits stored
    row-major (pixel (x, y) at index `x + y*w`). `Raster` is the value of a
    bitmap (what `#[derive(PartialEq)]` compares); `Bitmap` is the object whose
    `blit` and `invert` change its bits in place. */
module Bitmaps {

  datatype Raster = Raster(w: nat, h: nat, data: seq<bool>) {
    /** The invariant every constructor of the source keeps. */
    ghost predicate Valid() {
      |data| == w * h
    }
  }

  // ---------------------------------------------------------------------
  // Index arithmetic of the row-major layout

  lemma MulMono(a: nat, b: nat, c: nat)
    requires a <= b
    ensures a * c <= b * c
  {
  }

  /** A pixel inside the bounds has its index inside the bit array. */
  lemma IndexInRange(x: nat, y: nat, w: nat, h: nat)
    requires x < w && y < h
    ensures x + y * w < w * h
  {
    MulMono(y + 1, h, w);
  }

  /** The index of pixel (x, y) decodes back to (x, y). */
  lemma IndexDecompose(x: nat, y: nat, w: nat)
    requires x < w
    ensures (x + y * w) / w == y && (x + y * w) % w == x
  {
    var k := x + y * w;
    var q, r := k / w, k % w;
    assert k == q * w + r;
    if q > y {
      MulMono(y + 1, q, w);
    } else if q < y {
      MulMono(q + 1, y, w);
    }
  }

  /** An index inside the bit array decodes to a pixel inside the bounds. */
  lemma IndexSplit(k: nat, w: nat, h: nat)
    requires k < w * h
    ensures w > 0 && k % w < w && k / w < h && k == k % w + (k / w) * w
  {
    if k / w >= h {
      MulMono(h, k / w, w);
    }
  }

  /** Row-major index of pixel (x, y) in a raster `w` pixels wide. */
  function Offset(x: nat, y: nat, w: nat): nat {
    x + y * w
  }

  function At(r: Raster, x: nat, y: nat): bool
    requires r.Valid() && x < r.w && y < r.h
  {
    IndexInRange(x, y, r.w, r.h);
    r.data[x + y * r.w]
  }

  // ---------------------------------------------------------------------
  // Bitmap::new

  function Filled(w: nat, h: nat, on: bool): (r: Raster)
    ensures r.Valid() && r.w == w && r.h == h
  {
    Raster(w, h, seq(w * h, _ => on))
  }

  /** Every pixel of `Bitmap::new(w, h, on)` is `on`. */
  lemma FilledAt(w: nat, h: nat, on: bool, x: nat, y: nat)
    requires x < w && y < h
    ensures At(Filled(w, h, on), x, y) == on
  {
    IndexInRange(x, y, w, h);
  }

  // ---------------------------------------------------------------------
  // Bitmap::crop, as written and as evidently intended

  /** The bounds `crop` asserts before it copies anything. */
  predicate CropInBounds(r: Raster, x: nat, y: nat, w: nat, h: nat) {
    x <= r.w && y <= r.h && w <= r.w - x && h <= r.h - y
  }

  /** Result pixel `k` of `crop` as written: the loop variables `x` and `y`
      shadow the offset parameters, so it reads source pixel
      `(k % w, k / w)` and the offset plays no part. */
  function CropSource(r: Raster, w: nat, h: nat, k: nat): bool
    requires r.Valid() && w <= r.w && h <= r.h && k < w * h
  {
    IndexSplit(k, w, h);
    At(r, k % w, k / w)
  }

  function Cropped(r: Raster, x: nat, y: nat, w: nat, h: nat): (c: Raster)
    requires r.Valid() && CropInBounds(r, x, y, w, h)
    ensures c.Valid() && c.w == w && c.h == h
  {
    Raster(w, h, seq(w * h, k requires 0 <= k < w * h => CropSource(r, w, h, k)))
  }

  /** As written, result pixel (i, j) equals source pixel (i, j). */
  lemma CroppedAt(r: Raster, x: nat, y: nat, w: nat, h: nat, i: nat, j: nat)
    requires r.Valid() && CropInBounds(r, x, y, w, h) && i < w && j < h
    ensures At(Cropped(r, x, y, w, h), i, j) == At(r, i, j)
  {
    IndexInRange(i, j, w, h);
    IndexDecompose(i, j, w);
  }

  /** Result pixel `k` of the sub-rectangle at (x, y). */
  function WindowSource(r: Raster, x: nat, y: nat, w: nat, h: nat, k: nat): bool
    requires r.Valid() && CropInBounds(r, x, y, w, h) && k < w * h
  {
    IndexSplit(k, w, h);
    At(r, x + k % w, y + k / w)
  }

  /** The crop the documentation describes: the `w`×`h` sub-rectangle whose
      top-left corner is (x, y). */
  function Window(r: Raster, x: nat, y: nat, w: nat, h: nat): (c: Raster)
    requires r.Valid() && CropInBounds(r, x, y, w, h)
    ensures c.Valid() && c.w == w && c.h == h
  {
    Raster(w, h, seq(w * h, k requires 0 <= k < w * h => WindowSource(r, x, y, w, h, k)))
  }

  /** The corrected crop keeps the pixel at the corresponding offset
      coordinate. */
  lemma WindowAt(r: Raster, x: nat, y: nat, w: nat, h: nat, i: nat, j: nat)
    requires r.Valid() && CropInBounds(r, x, y, w, h) && i < w && j < h
    ensures At(Window(r, x, y, w, h), i, j) == At(r, x + i, y + j)
  {
    IndexInRange(i, j, w, h);
    IndexDecompose(i, j, w);
  }

  /** As written, `crop` at any offset is the window at the origin. */
  lemma CropIgnoresOffset(r: Raster, x: nat, y: nat, w: nat, h: nat)
    requires r.Valid() && CropInBounds(r, x, y, w, h)
    ensures Cropped(r, x, y, w, h) == Window(r, 0, 0, w, h)
  {
    var c, v := Cropped(r, x, y, w, h), Window(r, 0, 0, w, h);
    forall k | 0 <= k < w * h
      ensures c.data[k] == v.data[k]
    {
      IndexSplit(k, w, h);
    }
  }

  /** The input that shows the discrepancy: cropping the right pixel of the
      two-pixel row [off, on] yields [off], the left pixel. */
  lemma CropCounterexample()
    ensures var r := Raster(2, 1, [false, true]);
            Cropped(r, 1, 0, 1, 1).data == [false] && Window(r, 1, 0, 1, 1).data == [true]
  {
    var r := Raster(2, 1, [false, true]);
    IndexSplit(0, 1, 1);
    assert Cropped(r, 1, 0, 1, 1).data[0] == At(r, 0, 0);
    assert Window(r, 1, 0, 1, 1).data[0] == At(r, 1, 0);
  }

  // ---------------------------------------------------------------------
  // Bitmap::blit

  /** Destination pixel (sx, sy) lies under `src` placed at (x, y). */
  predicate Covers(src: Raster, x: int, y: int, sx: int, sy: int) {
    0 <= sx - x < src.w && 0 <= sy - y < src.h
  }

  /** New value of destination pixel (sx, sy) after blitting `src` at (x, y). */
  function BlitPixel(dst: Raster, src: Raster, x: int, y: int, overwrite: bool, sx: nat, sy: nat): bool
    requires dst.Valid() && src.Valid() && sx < dst.w && sy < dst.h
  {
    if Covers(src, x, y, sx, sy) then
      var o := At(src, sx - x, sy - y);
      if overwrite then o else At(dst, sx, sy) || o
    else
      At(dst, sx, sy)
  }

  function BlitSource(dst: Raster, src: Raster, x: int, y: int, overwrite: bool, k: nat): bool
    requires dst.Valid() && src.Valid() && k < |dst.data|
  {
    IndexSplit(k, dst.w, dst.h);
    BlitPixel(dst, src, x, y, overwrite, k % dst.w, k / dst.w)
  }

  /** `dst` after `dst.blit(src, x, y, opaque)`; `overwrite` stands for the source's `opaque` flag. */
  function Blitted(dst: Raster, src: Raster, x: int, y: int, overwrite: bool): (r: Raster)
    requires dst.Valid() && src.Valid()
    ensures r.Valid() && r.w == dst.w && r.h == dst.h
  {
    Raster(dst.w, dst.h, seq(|dst.data|, k requires 0 <= k < |dst.data| => BlitSource(dst, src, x, y, overwrite, k)))
  }

  /** Pixel-wise meaning of a blit: covered pixels take the source value
      (opaque blit) or the old value OR the source value (transparent); every
      other pixel keeps its old value. */
  lemma BlittedAt(dst: Raster, src: Raster, x: int, y: int, overwrite: bool, sx: nat, sy: nat)
    requires dst.Valid() && src.Valid() && sx < dst.w && sy < dst.h
    ensures var r := Blitted(dst, src, x, y, overwrite);
            && (!Covers(src, x, y, sx, sy) ==> At(r, sx, sy) == At(dst, sx, sy))
            && (Covers(src, x, y, sx, sy) && overwrite ==> At(r, sx, sy) == At(src, sx - x, sy - y))
            && (Covers(src, x, y, sx, sy) && !overwrite ==>
                  At(r, sx, sy) == (At(dst, sx, sy) || At(src, sx - x, sy - y)))
  {
    IndexInRange(sx, sy, dst.w, dst.h);
    IndexDecompose(sx, sy, dst.w);
  }

  /** A transparent blit never clears a pixel that was set. */
  lemma TransparentNeverClears(dst: Raster, src: Raster, x: int, y: int, sx: nat, sy: nat)
    requires dst.Valid() && src.Valid() && sx < dst.w && sy < dst.h && At(dst, sx, sy)
    ensures At(Blitted(dst, src, x, y, false), sx, sy)
  {
    BlittedAt(dst, src, x, y, false, sx, sy);
  }

  predicate AllOff(r: Raster) {
    forall k :: 0 <= k < |r.data| ==> !r.data[k]
  }

  /** Transparently blitting an all-off bitmap changes nothing. */
  lemma TransparentBlankIsIdentity(dst: Raster, src: Raster, x: int, y: int)
    requires dst.Valid() && src.Valid() && AllOff(src)
    ensures Blitted(dst, src, x, y, false) == dst
  {
    var r := Blitted(dst, src, x, y, false);
    forall k | 0 <= k < |dst.data|
      ensures r.data[k] == dst.data[k]
    {
      IndexSplit(k, dst.w, dst.h);
      var sx, sy := k % dst.w, k / dst.w;
      if Covers(src, x, y, sx, sy) {
        IndexInRange(sx - x, sy - y, src.w, src.h);
      }
    }
  }

  /** Opaquely blitting an all-off bitmap clears every covered pixel. */
  lemma OpaqueBlankClears(dst: Raster, src: Raster, x: int, y: int, sx: nat, sy: nat)
    requires dst.Valid() && src.Valid() && AllOff(src)
    requires sx < dst.w && sy < dst.h && Covers(src, x, y, sx, sy)
    ensures !At(Blitted(dst, src, x, y, true), sx, sy)
  {
    BlittedAt(dst, src, x, y, true, sx, sy);
    IndexInRange(sx - x, sy - y, src.w, src.h);
  }

  // ---------------------------------------------------------------------
  // Bitmap::invert

  function Inverted(r: Raster): (n: Raster)
    ensures n.w == r.w && n.h == r.h && |n.data| == |r.data|
    ensures forall k :: 0 <= k < |r.data| ==> n.data[k] == !r.data[k]
  {
    Raster(r.w, r.h, seq(|r.data|, k requires 0 <= k < |r.data| => !r.data[k]))
  }

  /** Inverting twice restores the bitmap. */
  lemma InvertInvolution(r: Raster)
    ensures Inverted(Inverted(r)) == r
  {
    assert Inverted(Inverted(r)).data == r.data;
  }

  // ---------------------------------------------------------------------
  // Loop steps of the in-place methods

  /** Step (i, j) of `crop`'s copy loop reads inside the source and produces
      result pixel `i + j*w`. */
  lemma CropStep(r: Raster, x: nat, y: nat, w: nat, h: nat, i: nat, j: nat)
    requires r.Valid() && CropInBounds(r, x, y, w, h) && i < w && j < h
    ensures i + j * r.w < |r.data| && i + j * w < w * h
    ensures Cropped(r, x, y, w, h).data[i + j * w] == r.data[i + j * r.w]
  {
    IndexInRange(i, j, r.w, r.h);
    IndexInRange(i, j, w, h);
    IndexDecompose(i, j, w);
  }

  /** The indices step (sx, sy) of `blit`'s loop reads and writes are in
      range. */
  lemma BlitIndices(dst: Raster, src: Raster, x: int, y: int, sx: nat, sy: nat)
    requires dst.Valid() && src.Valid() && sx < dst.w && sy < dst.h
    ensures sx + sy * dst.w < |dst.data|
    ensures Covers(src, x, y, sx, sy) ==> (sx - x) + (sy - y) * src.w < |src.data|
  {
    IndexInRange(sx, sy, dst.w, dst.h);
    if Covers(src, x, y, sx, sy) {
      IndexInRange(sx - x, sy - y, src.w, src.h);
    }
  }

  /** Step (sx, sy) of `blit`'s loop: the destination index, the source index
      when covered, and the value the blit leaves there. */
  lemma BlitStep(dst: Raster, src: Raster, x: int, y: int, overwrite: bool, sx: nat, sy: nat)
    requires dst.Valid() && src.Valid() && sx < dst.w && sy < dst.h
    ensures sx + sy * dst.w < |dst.data| && sx + sy * dst.w == sy * dst.w + sx
    ensures Covers(src, x, y, sx, sy) ==> (sx - x) + (sy - y) * src.w < |src.data|
    ensures var k := sx + sy * dst.w;
            Blitted(dst, src, x, y, overwrite).data[k] ==
              if Covers(src, x, y, sx, sy) then
                (if overwrite then src.data[(sx - x) + (sy - y) * src.w]
                 else dst.data[k] || src.data[(sx - x) + (sy - y) * src.w])
              else dst.data[k]
  {
    IndexInRange(sx, sy, dst.w, dst.h);
    IndexDecompose(sx, sy, dst.w);
    if Covers(src, x, y, sx, sy) {
      IndexInRange(sx - x, sy - y, src.w, src.h);
    }
  }

  /** The blit loop has produced the first `n` pixels of the result, in
      row-major order, and left the others as they were. */
  ghost predicate BlitProgress(dst: Raster, src: Raster, x: int, y: int, overwrite: bool, data: seq<bool>, n: nat)
    requires dst.Valid() && src.Valid()
  {
    var target := Blitted(dst, src, x, y, overwrite);
    |data| == |dst.data| && n <= |data|
    && (forall k :: 0 <= k < n ==> data[k] == target.data[k])
    && (forall k :: n <= k < |data| ==> data[k] == dst.data[k])
  }

  /** `data'` is `data` after the loop body visited pixel (sx, sy), whose
      index is `k`. */
  ghost predicate BlitVisited(src: Raster, x: int, y: int, overwrite: bool, data: seq<bool>, data': seq<bool>,
                              k: nat, sx: nat, sy: nat)
  {
    if Covers(src, x, y, sx, sy) then
      var o := Offset(sx - x, sy - y, src.w);
      k < |data| && o < |src.data|
      && data' == data[k := if overwrite then src.data[o] else data[k] || src.data[o]]
    else
      data' == data
  }

  lemma BlitAdvance(dst: Raster, src: Raster, x: int, y: int, overwrite: bool, data: seq<bool>, data': seq<bool>,
                    sx: nat, sy: nat)
    requires dst.Valid() && src.Valid() && sx < dst.w && sy < dst.h
    requires BlitProgress(dst, src, x, y, overwrite, data, sx + sy * dst.w)
    requires BlitVisited(src, x, y, overwrite, data, data', sx + sy * dst.w, sx, sy)
    ensures BlitProgress(dst, src, x, y, overwrite, data', sx + sy * dst.w + 1)
  {
    BlitStep(dst, src, x, y, overwrite, sx, sy);
    var k := sx + sy * dst.w;
    var target := Blitted(dst, src, x, y, overwrite);
    assert |data'| == |data|;
    assert data'[k] == target.data[k];
    forall j | 0 <= j < |data'| && j != k
      ensures data'[j] == data[j]
    {
    }
  }

  lemma BlitRowDone(dst: Raster, src: Raster, x: int, y: int, overwrite: bool, data: seq<bool>, sy: nat)
    requires dst.Valid() && src.Valid()
    requires BlitProgress(dst, src, x, y, overwrite, data, dst.w + sy * dst.w)
    ensures BlitProgress(dst, src, x, y, overwrite, data, (sy + 1) * dst.w)
  {
    assert dst.w + sy * dst.w == (sy + 1) * dst.w;
  }

  lemma BlitDone(dst: Raster, src: Raster, x: int, y: int, overwrite: bool, data: seq<bool>)
    requires dst.Valid() && src.Valid()
    requires BlitProgress(dst, src, x, y, overwrite, data, dst.h * dst.w)
    ensures Raster(dst.w, dst.h, data) == Blitted(dst, src, x, y, overwrite)
  {
    assert data == Blitted(dst, src, x, y, overwrite).data;
  }

  // ---------------------------------------------------------------------
  // The mutable object

  class Bitmap {
    var w: nat
    var h: nat
    var data: seq<bool>

    ghost predicate Valid()
      reads this
    {
      |data| == w * h
    }

    function Value(): Raster
      reads this
    {
      Raster(w, h, data)
    }

    /** `Bitmap::new(w, h, on)`. */
    constructor (w: nat, h: nat, on: bool)
      ensures Valid() && Value() == Filled(w, h, on)
    {
      this.w, this.h := w, h;
      data := seq(w * h, _ => on);
    }

    /** A struct literal `Bitmap { w, h, data }`. */
    constructor FromRaster(r: Raster)
      requires r.Valid()
      ensures Valid() && Value() == r
    {
      w, h, data := r.w, r.h, r.data;
    }

    /** `crop`, as written: panics unless the rectangle is inside the bitmap,
        then copies the `cw`×`ch` pixels at the origin. */
    method Crop(x: nat, y: nat, cw: nat, ch: nat) returns (c: Bitmap)
      requires Valid() && CropInBounds(Value(), x, y, cw, ch)
      ensures fresh(c) && c.Valid() && c.Value() == Cropped(Value(), x, y, cw, ch)
    {
      ghost var target := Cropped(Value(), x, y, cw, ch);
      var out: seq<bool> := [];
      for j := 0 to ch
        invariant |out| == j * cw && |out| <= cw * ch
        invariant forall k :: 0 <= k < |out| ==> out[k] == target.data[k]
      {
        ghost var base := |out|;
        MulMono(j + 1, ch, cw);
        for i := 0 to cw
          invariant |out| == base + i && base + cw <= cw * ch
          invariant forall k :: 0 <= k < |out| ==> out[k] == target.data[k]
        {
          CropStep(Value(), x, y, cw, ch, i, j);
          out := out + [data[i + j * w]];
        }
      }
      c := new Bitmap.FromRaster(Raster(cw, ch, out));
    }

    /** `blit`: draws `other` with its top-left corner at (x, y); the bounds
        are not expanded. */
    method Blit(other: Raster, x: int, y: int, overwrite: bool)
      requires Valid() && other.Valid()
      modifies this
      ensures Valid() && Value() == Blitted(old(Value()), other, x, y, overwrite)
    {
      ghost var before := Value();
      for sy := 0 to h
        invariant w == before.w && h == before.h
        invariant BlitProgress(before, other, x, y, overwrite, data, sy * w)
      {
        for sx := 0 to w
          invariant w == before.w && h == before.h
          invariant BlitProgress(before, other, x, y, overwrite, data, sx + sy * w)
        {
          ghost var prev := data;
          BlitPixel(other, x, y, overwrite, sx, sy);
          BlitAdvance(before, other, x, y, overwrite, prev, data, sx, sy);
        }
        BlitRowDone(before, other, x, y, overwrite, data, sy);
      }
      BlitDone(before, other, x, y, overwrite, data);
    }

    /** The body of `blit`'s inner loop: pixel (sx, sy) takes the source
        pixel over it, or that pixel or'ed in, when the source covers it. */
    method BlitPixel(other: Raster, x: int, y: int, overwrite: bool, sx: nat, sy: nat)
      requires Valid() && other.Valid() && sx < w && sy < h
      modifies this
      ensures w == old(w) && h == old(h)
      ensures BlitVisited(other, x, y, overwrite, old(data), data, sx + sy * w, sx, sy)
    {
      BlitIndices(Value(), other, x, y, sx, sy);
      var ox := sx - x;
      var oy := sy - y;
      var si := sx + sy * w;
      if 0 <= ox < other.w && 0 <= oy < other.h {
        var oi := ox + oy * other.w;
        if overwrite {
          data := data[si := other.data[oi]];
        } else {
          data := data[si := data[si] || other.data[oi]];
        }
      }
    }

    /** `invert`: negates every pixel. */
    method Invert()
      requires Valid()
      modifies this
      ensures Valid() && Value() == Inverted(old(Value()))
    {
      var bits := data;
      data := seq(|bits|, k requires 0 <= k < |bits| => !bits[k]);
    }
  }
}
