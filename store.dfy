/** The layer map shared by `DrawDevice` and its draw thread
    (`ggoled_draw/src/lib.rs`), and the `DrawDevice` operations that edit it.
    The `BTreeMap<LayerId, DrawLayerState>` is a sequence of entries in
    strictly ascending id order, which is also its iteration order; the
    `Arc<Mutex<..>>` sharing is one `LayerMap` object both sides refer to. */
module LayerStore {
  import opened Common
  import opened Bitmaps
  import opened Layers

  /** Ids strictly ascending: each id once, in `BTreeMap` order. */
  predicate Sorted(es: seq<Entry>) {
    forall i, j :: 0 <= i < j < |es| ==> es[i].id < es[j].id
  }

  /** `BTreeMap::remove(&id)`: the entries with another id, in order. */
  function Remove(es: seq<Entry>, id: nat): (r: seq<Entry>)
    ensures forall e :: e in r <==> e in es && e.id != id
    ensures Sorted(es) ==> Sorted(r)
    ensures EntriesValid(es) ==> EntriesValid(r)
  {
    if es == [] then []
    else
      var rest := Remove(es[1..], id);
      assert forall e :: e in es <==> e == es[0] || e in es[1..];
      if es[0].id == id then rest else [es[0]] + rest
  }

  /** A fresh entry's state: tick 0, next update `now`, scroll offset 0. */
  function NewState(layer: DrawLayer, now: int): (st: LayerState)
    ensures st.layer == layer && st.ticks == 0 && st.scrollX == 0
  {
    LayerState(layer, 0, now, 0)
  }

  /** The body of the layer loop for one layer: its blits onto `screen`,
      then `AnimState`/`ScrollState` moving on. */
  method DrawLayerOnto(screen: Bitmap, st: LayerState, time: int, width: nat, sx: int, sy: int)
    returns (st': LayerState)
    requires screen.Valid() && LayerValid(st.layer)
    modifies screen
    ensures screen.Valid() && screen.Value() == Paint(old(screen.Value()), Placements(st, width, sx, sy))
    ensures st' == Advance(st, time)
  {
    ghost var ps := Placements(st, width, sx, sy);
    ghost var base := screen.Value();
    st' := st;
    match st.layer {
      case Image(b, x, y) =>
        screen.Blit(b, x + sx, y + sy, false);
        assert ps[..0] == [];
      case Animation(frames, x, y, followFps) =>
        if frames != [] {
          var frame := frames[st.ticks % |frames|];
          screen.Blit(frame.bitmap, x + sx, y + sy, false);
          assert ps[..0] == [];
          if followFps {
            st' := st'.(ticks := st'.ticks + 1);
          } else if time >= st'.nextUpdate {
            st' := st'.(ticks := st'.ticks + 1);
            if frame.delay.Some? {
              st' := st'.(nextUpdate := st'.nextUpdate + frame.delay.value);
            }
          }
        }
      case Scroll(b, y) =>
        var sw := b.w + MARGIN;
        var dupes := 1 + width / sw;
        BlitStrip(screen, b, st.scrollX, sw, dupes + 1, sx, y + sy);
        st' := st'.(scrollX := st'.scrollX - 1);
        if st'.scrollX <= -sw {
          st' := st'.(scrollX := st'.scrollX + sw);
        }
    }
  }

  /** `for i in 0..=dupes`: the copies of a scrolling bitmap, left to right. */
  method BlitStrip(screen: Bitmap, b: Raster, start: int, sw: nat, n: nat, sx: int, y: int)
    requires screen.Valid() && b.Valid()
    modifies screen
    ensures screen.Valid() && screen.Value() == Paint(old(screen.Value()), Strip(b, start, sw, n, sx, y))
  {
    ghost var ps := Strip(b, start, sw, n, sx, y);
    ghost var base := screen.Value();
    for j := 0 to n
      invariant screen.Valid() && screen.Value() == Paint(base, ps[..j])
    {
      screen.Blit(b, start + j * sw + sx, y, false);
      assert ps[..j + 1][..j] == ps[..j];
    }
    assert ps[..n] == ps;
  }

  class LayerMap {
    var entries: seq<Entry>

    constructor ()
      ensures entries == []
    {
      entries := [];
    }

    /** The layer pass of one rendered frame: every layer, in id order, is
        blitted transparently onto `screen` shifted by (sx, sy), and its
        animation or scroll state moves on. */
    method RenderOnto(screen: Bitmap, time: int, width: nat, sx: int, sy: int)
      requires screen.Valid() && EntriesValid(entries)
      modifies this, screen
      ensures screen.Valid() && screen.Value() == Render(old(screen.Value()), old(entries), width, sx, sy)
      ensures entries == Advanced(old(entries), time)
    {
      ghost var start := screen.Value();
      ghost var es0 := entries;
      ghost var done := Advanced(es0, time);
      var i := 0;
      while i < |entries|
        invariant 0 <= i <= |entries| == |es0|
        invariant screen.Valid() && screen.Value() == Render(start, es0[..i], width, sx, sy)
        invariant forall k :: 0 <= k < i ==> entries[k] == done[k]
        invariant forall k :: i <= k < |es0| ==> entries[k] == es0[k]
      {
        var e := entries[i];
        assert es0[..i + 1][..i] == es0[..i];
        var st := DrawLayerOnto(screen, e.state, time, width, sx, sy);
        entries := entries[i := Entry(e.id, st)];
        i := i + 1;
      }
      assert es0[..i] == es0;
    }
  }

  /** The line `i` of `n` lines of text as `add_text` places it: lines are
      `lineHeight` apart from `y` (or from the top of the vertically centred
      block); a line at least as wide as the screen scrolls, any other is an
      image at `x` or centred. */
  function TextLayer(width: nat, height: nat, line: Raster, n: nat, lineHeight: nat,
                     x: Option<int>, y: Option<int>, i: nat): DrawLayer
  {
    var centerY := TruncDiv(height as int - (lineHeight * n) as int, 2);
    var top := (if y.Some? then y.value else centerY) + (i * lineHeight) as int;
    if line.w >= width then Scroll(line, top)
    else Image(line, if x.Some? then x.value else Center(width, height, line).0, top)
  }

  /** Where the text's lines land: consecutive lines are `lineHeight` apart,
      a centred block that fits lies inside the screen with balanced
      margins, and a line that fits is centred horizontally when no `x` is
      given. */
  lemma TextPlacement(width: nat, height: nat, lines: seq<Raster>, lineHeight: nat,
                      x: Option<int>, y: Option<int>, i: nat)
    requires i < |lines|
    ensures var l := TextLayer(width, height, lines[i], |lines|, lineHeight, x, y, i);
            && (l.Scroll? <==> lines[i].w >= width)
            && (i + 1 < |lines| ==>
                  TextLayer(width, height, lines[i + 1], |lines|, lineHeight, x, y, i + 1).y == l.y + lineHeight)
            && (y.None? && lineHeight * |lines| <= height ==>
                  var top := l.y - i * lineHeight;
                  0 <= top && top + lineHeight * |lines| <= height
                  && 0 <= (height - (top + lineHeight * |lines|)) - top <= 1)
            && (l.Image? && x.None? ==> 0 <= l.x && l.x + lines[i].w <= width
                                        && 0 <= (width - (l.x + lines[i].w)) - l.x <= 1)
  {
    CenterAxis(height, lineHeight * |lines|);
    CenterBalanced(width, height, lines[i]);
    assert (i + 1) * lineHeight == i * lineHeight + lineHeight;
  }

  function TextEntries(width: nat, height: nat, lines: seq<Raster>, lineHeight: nat,
                       x: Option<int>, y: Option<int>, now: int, first: nat, count: nat): (es: seq<Entry>)
    requires count <= |lines|
    ensures |es| == count
  {
    seq(count, k requires 0 <= k < count =>
      Entry(first + k, NewState(TextLayer(width, height, lines[k], |lines|, lineHeight, x, y, k), now)))
  }

  class DrawDevice {
    var width: nat
    var height: nat
    var layers: LayerMap
    var layerCounter: nat

    /** Ids ascend, are never 0 (`LayerId::none()`) and never exceed the
        counter, so the next id is new. */
    ghost predicate Valid()
      reads this, layers
    {
      && Sorted(layers.entries)
      && EntriesValid(layers.entries)
      && forall k :: 0 <= k < |layers.entries| ==> 0 < layers.entries[k].id <= layerCounter
    }

    /** `DrawDevice::new` without its thread: an empty map and counter 0. */
    constructor (width: nat, height: nat)
      ensures Valid() && fresh(layers) && this.width == width && this.height == height
      ensures layers.entries == [] && layerCounter == 0
    {
      this.width, this.height := width, height;
      layers := new LayerMap();
      layerCounter := 0;
    }

    /** `add_layer`: the counter moves on by one and the new entry goes last. */
    method AddLayer(layer: DrawLayer, now: int) returns (id: nat)
      requires Valid() && LayerValid(layer)
      modifies this, layers
      ensures Valid() && layers == old(layers) && width == old(width) && height == old(height)
      ensures id == old(layerCounter) + 1 && layerCounter == id
      ensures forall k :: 0 <= k < |old(layers.entries)| ==> old(layers.entries)[k].id != id
      ensures layers.entries == old(layers.entries) + [Entry(id, NewState(layer, now))]
    {
      layerCounter := layerCounter + 1;
      id := layerCounter;
      layers.entries := layers.entries + [Entry(id, NewState(layer, now))];
    }

    /** `remove_layer`: exactly the entry with `id` goes. */
    method RemoveLayer(id: nat)
      requires Valid()
      modifies layers
      ensures Valid()
      ensures forall e :: e in layers.entries <==> e in old(layers.entries) && e.id != id
    {
      layers.entries := Remove(layers.entries, id);
    }

    /** `remove_layers`: exactly the entries named in `ids` go. */
    method RemoveLayers(ids: seq<nat>)
      requires Valid()
      modifies layers
      ensures Valid()
      ensures forall e :: e in layers.entries <==> e in old(layers.entries) && e.id !in ids
    {
      for i := 0 to |ids|
        invariant Valid()
        invariant forall e :: e in layers.entries <==> e in old(layers.entries) && e.id !in ids[..i]
      {
        assert ids[..i + 1] == ids[..i] + [ids[i]];
        layers.entries := Remove(layers.entries, ids[i]);
      }
      assert ids[..|ids|] == ids;
    }

    /** `clear_layers`. */
    method ClearLayers()
      requires Valid()
      modifies layers
      ensures Valid() && layers.entries == []
    {
      layers.entries := [];
    }

    /** `add_text`: one layer per rendered line, placed by `TextLayer`; the
        ids come back in line order. `lines` and `lineHeight` are what the
        text renderer gives. */
    method AddText(lines: seq<Raster>, lineHeight: nat, x: Option<int>, y: Option<int>, now: int)
      returns (ids: seq<nat>)
      requires Valid() && forall k :: 0 <= k < |lines| ==> lines[k].Valid()
      modifies this, layers
      ensures Valid() && layers == old(layers) && width == old(width) && height == old(height)
      ensures |ids| == |lines| && layerCounter == old(layerCounter) + |lines|
      ensures forall k :: 0 <= k < |lines| ==> ids[k] == old(layerCounter) + k + 1
      ensures layers.entries == old(layers.entries)
                + TextEntries(width, height, lines, lineHeight, x, y, now, old(layerCounter) + 1, |lines|)
    {
      ids := [];
      for i := 0 to |lines|
        invariant Valid() && layers == old(layers) && width == old(width) && height == old(height)
        invariant |ids| == i && layerCounter == old(layerCounter) + i
        invariant forall k :: 0 <= k < i ==> ids[k] == old(layerCounter) + k + 1
        invariant layers.entries == old(layers.entries)
                    + TextEntries(width, height, lines, lineHeight, x, y, now, old(layerCounter) + 1, i)
      {
        var layer := TextLayer(width, height, lines[i], |lines|, lineHeight, x, y, i);
        var id := AddLayer(layer, now);
        ids := ids + [id];
        assert TextEntries(width, height, lines, lineHeight, x, y, now, old(layerCounter) + 1, i + 1)
            == TextEntries(width, height, lines, lineHeight, x, y, now, old(layerCounter) + 1, i)
               + [Entry(id, NewState(layer, now))];
      }
    }
  }
}
