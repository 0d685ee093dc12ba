/** The draw-report encoder of `ggoled_lib` (the older `src/gg.rs` holds the
    same two functions): a bitmap drawn at a signed screen offset is clipped
    to the screen, split into chunks of at most 64 columns, and every chunk is
    bit-packed column-major into one 1024-byte HID feature report. */
module Report {
  import opened Common
  import opened Bitmaps

  const REPORT_SPLIT_SZ: nat := 64
  const REPORT_SIZE: nat := 1024
  /** Number of payload bits. */
  const PAYLOAD_BITS: nat := (REPORT_SIZE - 6) * 8

  /** `ReportDrawable`: a `w`×`h` piece of `bitmap` whose top-left pixel is
      bitmap pixel (srcX, srcY), drawn at screen position (dstX, dstY). */
  datatype Drawable = Drawable(bitmap: Raster, w: nat, h: nat, dstX: nat, dstY: nat, srcX: nat, srcY: nat)

  // ---------------------------------------------------------------------
  // Column layout of the pixel payload

  /** Bits per encoded column: the chunk height plus the destination's offset
      inside its 8-row band, rounded up to whole bytes. */
  function Stride(d: Drawable): nat {
    DivCeil(d.dstY % 8 + d.h, 8) * 8
  }

  /** The stride is a whole number of bytes, at least the chunk height and
      less than a byte more than the padded height. */
  lemma StrideBounds(d: Drawable)
    ensures d.h <= Stride(d) && Stride(d) % 8 == 0 && Stride(d) < d.dstY % 8 + d.h + 8
  {
  }

  /** Index of the bitmap bit that carries chunk pixel (x, y). */
  function PixelIndex(d: Drawable, x: nat, y: nat): nat {
    (d.srcY + y) * d.bitmap.w + d.srcX + x
  }

  /** Every bitmap index `create_report` reads is inside the bit array
      (otherwise it panics). */
  predicate SourceFits(d: Drawable) {
    d.w == 0 || d.h == 0 || PixelIndex(d, d.w - 1, d.h - 1) < |d.bitmap.data|
  }

  /** Every report index `create_report` writes is inside the report
      (otherwise it panics). */
  predicate ReportFits(d: Drawable) {
    d.w == 0 || d.h == 0 || 6 + ((d.w - 1) * Stride(d) + d.h - 1) / 8 < REPORT_SIZE
  }

  lemma PixelIndexFits(d: Drawable, x: nat, y: nat)
    requires SourceFits(d) && x < d.w && y < d.h
    ensures PixelIndex(d, x, y) < |d.bitmap.data|
  {
    MulMono(d.srcY + y, d.srcY + d.h - 1, d.bitmap.w);
  }

  lemma ReportIndexFits(d: Drawable, x: nat, y: nat)
    requires ReportFits(d) && x < d.w && y < d.h
    ensures 0 <= x * Stride(d) && 6 + (x * Stride(d) + y) / 8 < REPORT_SIZE
    ensures x * Stride(d) + y < PAYLOAD_BITS
  {
    MulMono(0, x, Stride(d));
    MulMono(x, d.w - 1, Stride(d));
  }

  /** Chunk pixel (x, y) of the drawable. */
  function PixelOf(d: Drawable, x: nat, y: nat): bool
    requires SourceFits(d) && x < d.w && y < d.h
  {
    PixelIndexFits(d, x, y);
    d.bitmap.data[PixelIndex(d, x, y)]
  }

  /** Column and row of payload bit `ri` for stride `s`. */
  function Column(ri: nat, s: nat): nat
    requires s > 0
  {
    ri / s
  }

  function Row(ri: nat, s: nat): nat
    requires s > 0
  {
    ri % s
  }

  lemma ColumnRow(ri: nat, s: nat)
    requires s > 0
    ensures ri == Column(ri, s) * s + Row(ri, s) && Row(ri, s) < s
  {
  }

  /** Reference meaning of payload bit `ri` (bit `ri % 8` of byte
      `6 + ri / 8`): it is column `ri / stride`, row `ri % stride` of the
      chunk, set iff that position is inside the chunk and its pixel is on. */
  predicate ReportBit(d: Drawable, ri: nat)
    requires SourceFits(d)
  {
    var s := Stride(d);
    s > 0 && Column(ri, s) < d.w && Row(ri, s) < d.h && PixelOf(d, Column(ri, s), Row(ri, s))
  }

  // ---------------------------------------------------------------------
  // Bytes and bits

  /** The byte with only bit `b` set. */
  function Mask(b: nat): byte
    requires b < 8
  {
    if b == 0 then 0x01 else if b == 1 then 0x02 else if b == 2 then 0x04 else if b == 3 then 0x08
    else if b == 4 then 0x10 else if b == 5 then 0x20 else if b == 6 then 0x40 else 0x80
  }

  /** Bit `b` of a byte, counting from the least significant. */
  predicate Bit(v: byte, b: nat)
    requires b < 8
  {
    v & Mask(b) != 0
  }

  lemma BitOfZero(b: nat)
    requires b < 8
    ensures !Bit(0, b)
  {
  }

  /** Shifting a 0/1 value left by `c` gives the mask of bit `c` or zero. */
  lemma ShiftIsMask(m: byte, c: nat)
    requires m <= 1 && c < 8
    ensures m << c == if m == 1 then Mask(c) else 0
  {
  }

  lemma BitOfMask(c: nat, b: nat)
    requires c < 8 && b < 8
    ensures Bit(Mask(c), b) == (b == c)
  {
  }

  lemma BitOfOr(u: byte, v: byte, b: nat)
    requires b < 8
    ensures Bit(u | v, b) == (Bit(u, b) || Bit(v, b))
  {
  }

  /** ORing in the mask of bit `c` when `on` sets bit `c` when `on` and
      leaves every other bit as it was. */
  lemma BitOfSetMask(v: byte, on: bool, c: nat, b: nat)
    requires c < 8 && b < 8
    ensures Bit(v | (if on then Mask(c) else 0), b) == (Bit(v, b) || (on && b == c))
  {
    BitOfOr(v, if on then Mask(c) else 0, b);
    BitOfMask(c, b);
    BitOfZero(b);
  }

  /** A byte is determined by its eight bits. */
  lemma BitsDetermineByte(u: byte, v: byte)
    requires forall b :: 0 <= b < 8 ==> Bit(u, b) == Bit(v, b)
    ensures u == v
  {
    assert Bit(u, 0) == Bit(v, 0) && Bit(u, 1) == Bit(v, 1) && Bit(u, 2) == Bit(v, 2) && Bit(u, 3) == Bit(v, 3)
        && Bit(u, 4) == Bit(v, 4) && Bit(u, 5) == Bit(v, 5) && Bit(u, 6) == Bit(v, 6) && Bit(u, 7) == Bit(v, 7);
  }

  /** Byte `j` of a bit string with its low `n` bits packed: bit `b` of
      the byte is bit `8*j + b` of the string. */
  function PackByte(bits: seq<bool>, j: nat, n: nat): byte
    requires j * 8 + 8 <= |bits| && n <= 8
  {
    if n == 0 then 0
    else PackByte(bits, j, n - 1) | (if bits[j * 8 + n - 1] then Mask(n - 1) else 0)
  }

  lemma {:induction false} PackByteBit(bits: seq<bool>, j: nat, n: nat, b: nat)
    requires j * 8 + 8 <= |bits| && n <= 8 && b < 8
    ensures Bit(PackByte(bits, j, n), b) == (b < n && bits[j * 8 + b])
  {
    if n == 0 {
      BitOfZero(b);
    } else {
      PackByteBit(bits, j, n - 1, b);
      BitOfSetMask(PackByte(bits, j, n - 1), bits[j * 8 + n - 1], n - 1, b);
    }
  }

  /** Every payload bit of a drawable, by its reference meaning. */
  function PayloadBits(d: Drawable): (bits: seq<bool>)
    requires SourceFits(d)
    ensures |bits| == PAYLOAD_BITS && forall ri :: 0 <= ri < PAYLOAD_BITS ==> bits[ri] == ReportBit(d, ri)
  {
    seq(PAYLOAD_BITS, ri requires 0 <= ri => ReportBit(d, ri))
  }

  function Header(d: Drawable): seq<byte> {
    [0x06, 0x93, U8(d.dstX), U8(d.dstY), U8(d.w), U8(d.h)]
  }

  /** The report `create_report` builds, byte for byte: report id 0x06, draw
      command 0x93, the four geometry bytes cut to `u8`, then the payload. */
  function EncodeReport(d: Drawable): (r: seq<byte>)
    requires SourceFits(d)
    ensures |r| == REPORT_SIZE
  {
    var bits := PayloadBits(d);
    Header(d) + seq(REPORT_SIZE - 6, j requires 0 <= j < REPORT_SIZE - 6 => PackByte(bits, j, 8))
  }

  // ---------------------------------------------------------------------
  // The decoder and the round trip

  /** What a device reads for chunk pixel (x, y): bit `ri % 8` of byte
      `6 + ri / 8` with `ri = x*stride + y`. */
  function DecodePixel(report: seq<byte>, d: Drawable, x: nat, y: nat): bool
    requires |report| == REPORT_SIZE && ReportFits(d) && x < d.w && y < d.h
  {
    ReportIndexFits(d, x, y);
    var ri := x * Stride(d) + y;
    Bit(report[6 + ri / 8], ri % 8)
  }

  /** Payload bit `ri` is column `ri / stride`, row `ri % stride`. */
  lemma ColumnIndex(d: Drawable, x: nat, y: nat)
    requires y < d.h
    ensures var s := Stride(d); var ri := x * s + y;
            s > 0 && Column(ri, s) == x && Row(ri, s) == y
  {
    StrideBounds(d);
    IndexDecompose(y, x, Stride(d));
  }

  /** Payload byte `j` packs bits `8*j .. 8*j + 7`. */
  lemma PayloadByte(d: Drawable, j: nat)
    requires SourceFits(d) && j < REPORT_SIZE - 6
    ensures EncodeReport(d)[6 + j] == PackByte(PayloadBits(d), j, 8)
  {
  }

  /** Payload bit `ri` of the encoded report, read back from bit `ri % 8`
      of byte `6 + ri / 8`, is its reference bit. */
  lemma EncodedBit(d: Drawable, ri: nat)
    requires SourceFits(d) && ri < PAYLOAD_BITS
    ensures Bit(EncodeReport(d)[6 + ri / 8], ri % 8) == ReportBit(d, ri)
  {
    var j := ri / 8;
    PayloadByte(d, j);
    PackByteBit(PayloadBits(d), j, 8, ri % 8);
    assert j * 8 + ri % 8 == ri;
  }

  /** Round trip: decoding an encoded chunk gives back every one of its
      pixels, for every destination offset, width and height that fit. */
  lemma RoundTrip(d: Drawable, x: nat, y: nat)
    requires SourceFits(d) && ReportFits(d) && x < d.w && y < d.h
    ensures DecodePixel(EncodeReport(d), d, x, y) == PixelOf(d, x, y)
  {
    ReportIndexFits(d, x, y);
    var ri := x * Stride(d) + y;
    calc {
      DecodePixel(EncodeReport(d), d, x, y);
    == { DecodeAt(EncodeReport(d), d, x, y); }
      Bit(EncodeReport(d)[6 + ri / 8], ri % 8);
    == { EncodedBit(d, ri); }
      ReportBit(d, ri);
    == { ReportBitAt(d, x, y); }
      PixelOf(d, x, y);
    }
  }

  /** The reference bit of pixel (x, y) is that pixel. */
  lemma ReportBitAt(d: Drawable, x: nat, y: nat)
    requires SourceFits(d) && x < d.w && y < d.h
    ensures ReportBit(d, x * Stride(d) + y) == PixelOf(d, x, y)
  {
    ColumnIndex(d, x, y);
  }

  /** Pixel (x, y) is read from payload bit `x*stride + y`. */
  lemma DecodeAt(report: seq<byte>, d: Drawable, x: nat, y: nat)
    requires |report| == REPORT_SIZE && ReportFits(d) && x < d.w && y < d.h
    ensures var ri := x * Stride(d) + y;
            6 + ri / 8 < REPORT_SIZE && DecodePixel(report, d, x, y) == Bit(report[6 + ri / 8], ri % 8)
  {
    ReportIndexFits(d, x, y);
  }

  /** Padding stays clear: a payload bit that is set always carries a chunk
      pixel, i.e. sits at `x*stride + y` for a column x < w and row y < h. */
  lemma PaddingIsClear(d: Drawable, k: nat, b: nat)
    requires SourceFits(d) && 6 <= k < REPORT_SIZE && b < 8
    requires Bit(EncodeReport(d)[k], b)
    ensures var s := Stride(d); var ri := (k - 6) * 8 + b;
            s > 0 && Column(ri, s) < d.w && Row(ri, s) < d.h && ri == Column(ri, s) * s + Row(ri, s)
  {
    var ri := (k - 6) * 8 + b;
    PayloadByte(d, k - 6);
    PackByteBit(PayloadBits(d), k - 6, 8, b);
    assert ReportBit(d, ri);
    ColumnRow(ri, Stride(d));
  }

  /** The header holds the report id, the draw command and the geometry as
      `u8`. */
  lemma HeaderBytes(d: Drawable)
    requires SourceFits(d)
    ensures var r := EncodeReport(d);
            r[0] == 0x06 && r[1] == 0x93 && r[2] as nat == d.dstX % 256 && r[3] as nat == d.dstY % 256
            && r[4] as nat == d.w % 256 && r[5] as nat == d.h % 256
  {
  }

  /** Chunks of at most 64×64 pixels always fit the report. */
  lemma SmallChunkFits(d: Drawable)
    requires d.w <= REPORT_SPLIT_SZ && d.h <= 64
    ensures ReportFits(d)
  {
    StrideBounds(d);
    if d.w > 0 && d.h > 0 {
      var s := Stride(d);
      assert s <= 72;
      MulMono(d.w - 1, 63, s);
      MulMono(s, 72, 63);
    }
  }

  // ---------------------------------------------------------------------
  // create_report

  /** Pixels the encoding loop has already ORed in after finishing rows
      `< y` and columns `< x` of row y. */
  predicate Packed(d: Drawable, ri: nat, y: nat, x: nat)
    requires SourceFits(d)
  {
    var s := Stride(d);
    s > 0 && Column(ri, s) < d.w && Row(ri, s) < d.h
    && (Row(ri, s) < y || (Row(ri, s) == y && Column(ri, s) < x))
    && PixelOf(d, Column(ri, s), Row(ri, s))
  }

  lemma PackedStep(d: Drawable, y: nat, x: nat, ri: nat, ri0: nat)
    requires SourceFits(d) && x < d.w && y < d.h && ri0 == Offset(y, x, Stride(d))
    ensures Packed(d, ri, y, x + 1) == (Packed(d, ri, y, x) || (ri == ri0 && PixelOf(d, x, y)))
  {
    ColumnIndex(d, x, y);
    var s := Stride(d);
    if Column(ri, s) == x && Row(ri, s) == y {
      assert ri == x * s + y;
    }
  }

  lemma PackedRow(d: Drawable, y: nat, ri: nat)
    requires SourceFits(d)
    ensures Packed(d, ri, y, d.w) == Packed(d, ri, y + 1, 0)
  {
  }

  lemma PackedAll(d: Drawable, ri: nat)
    requires SourceFits(d)
    ensures Packed(d, ri, d.h, 0) == ReportBit(d, ri)
  {
  }

  /** The payload bits of the zeroed report. */
  function NoBits(): (bits: seq<bool>)
    ensures |bits| == PAYLOAD_BITS && forall ri :: 0 <= ri < PAYLOAD_BITS ==> !bits[ri]
  {
    seq(PAYLOAD_BITS, _ => false)
  }

  /** Byte `v` holds bits `8*j .. 8*j + 7` of `bits`. */
  ghost predicate ByteSpells(v: byte, bits: seq<bool>, j: nat) {
    j * 8 + 8 <= |bits| && forall b :: 0 <= b < 8 ==> Bit(v, b) == bits[j * 8 + b]
  }

  /** The payload bytes of `r` spell out the bit sequence `bits`. */
  ghost predicate BytesSpell(r: seq<byte>, bits: seq<bool>) {
    |r| == REPORT_SIZE && |bits| == PAYLOAD_BITS
    && forall k :: 6 <= k < REPORT_SIZE ==> ByteSpells(r[k], bits, k - 6)
  }

  /** ORing the mask of bit `ri % 8` (or zero) into the byte that holds
      bit `ri` ORs `on` into that bit. */
  lemma TargetByte(v: byte, mask: byte, bits: seq<bool>, ri: nat, on: bool)
    requires ri < |bits| && ByteSpells(v, bits, ri / 8)
    requires mask == if on then Mask(ri % 8) else 0
    ensures ByteSpells(v | mask, bits[ri := bits[ri] || on], ri / 8)
  {
    var v' := v | mask;
    var bits' := bits[ri := bits[ri] || on];
    forall b | 0 <= b < 8
      ensures Bit(v', b) == bits'[(ri / 8) * 8 + b]
    {
      BitOfOr(v, mask, b);
      BitOfMask(ri % 8, b);
      BitOfZero(b);
      assert ((ri / 8) * 8 + b == ri) == (b == ri % 8);
    }
  }

  /** Bytes other than the one holding bit `ri` do not see it change. */
  lemma OtherByte(v: byte, bits: seq<bool>, ri: nat, on: bool, j: nat)
    requires ri < |bits| && ByteSpells(v, bits, j) && j != ri / 8
    ensures ByteSpells(v, bits[ri := bits[ri] || on], j)
  {
    var bits' := bits[ri := bits[ri] || on];
    forall b | 0 <= b < 8
      ensures Bit(v, b) == bits'[j * 8 + b]
    {
      assert j * 8 + b != ri;
    }
  }

  lemma ByteOr(r: seq<byte>, bits: seq<bool>, ri: nat, mask: byte, on: bool, r': seq<byte>, bits': seq<bool>)
    requires BytesSpell(r, bits) && ri < PAYLOAD_BITS
    requires mask == if on then Mask(ri % 8) else 0
    requires r' == r[ri / 8 + 6 := r[ri / 8 + 6] | mask] && bits' == bits[ri := bits[ri] || on]
    ensures BytesSpell(r', bits')
  {
    forall k | 6 <= k < REPORT_SIZE
      ensures ByteSpells(r'[k], bits', k - 6)
    {
      ByteOrAt(r, bits, ri, mask, on, k);
    }
  }

  /** One payload byte of `ByteOr`. */
  lemma ByteOrAt(r: seq<byte>, bits: seq<bool>, ri: nat, mask: byte, on: bool, k: nat)
    requires BytesSpell(r, bits) && ri < PAYLOAD_BITS && 6 <= k < REPORT_SIZE
    requires mask == if on then Mask(ri % 8) else 0
    ensures ByteSpells(r[ri / 8 + 6 := r[ri / 8 + 6] | mask][k], bits[ri := bits[ri] || on], k - 6)
  {
    if k == ri / 8 + 6 {
      TargetByte(r[k], mask, bits, ri, on);
    } else {
      OtherByte(r[k], bits, ri, on, k - 6);
    }
  }

  lemma BytesStart(r: seq<byte>)
    requires |r| == REPORT_SIZE && forall k :: 6 <= k < REPORT_SIZE ==> r[k] == 0
    ensures BytesSpell(r, NoBits())
  {
    forall k, b | 6 <= k < REPORT_SIZE && 0 <= b < 8
      ensures !Bit(r[k], b)
    {
      BitOfZero(b);
    }
    forall k | 6 <= k < REPORT_SIZE
      ensures ByteSpells(r[k], NoBits(), k - 6)
    {
    }
  }

  /** Payload bit `x*stride + y` of a chunk pixel is inside the payload. */
  lemma PayloadIndexFits(d: Drawable, x: nat, y: nat)
    requires ReportFits(d) && x < d.w && y < d.h
    ensures Offset(y, x, Stride(d)) < PAYLOAD_BITS && Offset(y, x, Stride(d)) / 8 + 6 < REPORT_SIZE
  {
    ReportIndexFits(d, x, y);
  }

  /** The payload bits after the encoding loop has done rows `< y` and
      columns `< x` of row y, in the loop's own order. */
  ghost function PackedBits(d: Drawable, y: nat, x: nat): (bits: seq<bool>)
    requires SourceFits(d) && ReportFits(d) && y <= d.h && x <= d.w && (y == d.h ==> x == 0)
    ensures |bits| == PAYLOAD_BITS
    decreases y, x
  {
    if x == 0 then
      if y == 0 then NoBits() else PackedBits(d, y - 1, d.w)
    else
      PayloadIndexFits(d, x - 1, y);
      var bits := PackedBits(d, y, x - 1);
      var ri := Offset(y, x - 1, Stride(d));
      bits[ri := bits[ri] || PixelOf(d, x - 1, y)]
  }

  /** The loop-order bits are the `Packed` set. */
  lemma {:induction false} PackedBitsMeaning(d: Drawable, y: nat, x: nat, ri: nat)
    requires SourceFits(d) && ReportFits(d) && y <= d.h && x <= d.w && (y == d.h ==> x == 0)
    requires ri < PAYLOAD_BITS
    ensures PackedBits(d, y, x)[ri] == Packed(d, ri, y, x)
    decreases y, x
  {
    if x == 0 {
      if y > 0 {
        PackedBitsMeaning(d, y - 1, d.w, ri);
        PackedRow(d, y - 1, ri);
      }
    } else {
      PayloadIndexFits(d, x - 1, y);
      PackedBitsMeaning(d, y, x - 1, ri);
      PackedStep(d, y, x - 1, ri, Offset(y, x - 1, Stride(d)));
    }
  }

  /** Once every row is done, the loop-order bits are the reference bits. */
  lemma PackedIsPayload(d: Drawable)
    requires SourceFits(d) && ReportFits(d)
    ensures PackedBits(d, d.h, 0) == PayloadBits(d)
  {
    forall ri | 0 <= ri < PAYLOAD_BITS
      ensures PackedBits(d, d.h, 0)[ri] == PayloadBits(d)[ri]
    {
      PackedBitsMeaning(d, d.h, 0, ri);
      PackedAll(d, ri);
    }
  }

  /** A byte that spells eight bits is their packed byte. */
  lemma SpellIsPack(v: byte, bits: seq<bool>, j: nat)
    requires ByteSpells(v, bits, j)
    ensures v == PackByte(bits, j, 8)
  {
    forall b | 0 <= b < 8
      ensures Bit(v, b) == Bit(PackByte(bits, j, 8), b)
    {
      PackByteBit(bits, j, 8, b);
    }
    BitsDetermineByte(v, PackByte(bits, j, 8));
  }

  lemma PackedEnd(d: Drawable, r: seq<byte>)
    requires SourceFits(d) && ReportFits(d) && BytesSpell(r, PackedBits(d, d.h, 0)) && r[..6] == Header(d)
    ensures r == EncodeReport(d)
  {
    var e := EncodeReport(d);
    var bits := PayloadBits(d);
    PackedIsPayload(d);
    forall k | 6 <= k < REPORT_SIZE
      ensures r[k] == e[k]
    {
      SpellIsPack(r[k], bits, k - 6);
    }
    forall k | 0 <= k < 6
      ensures r[k] == e[k]
    {
      assert r[k] == r[..6][k];
    }
  }

  /** `[0; REPORT_SIZE]` with the six header writes of `create_report`. */
  function InitialReport(d: Drawable): (r: seq<byte>)
    ensures |r| == REPORT_SIZE
  {
    seq(REPORT_SIZE, _ => 0)[0 := 0x06][1 := 0x93][2 := U8(d.dstX)][3 := U8(d.dstY)][4 := U8(d.w)][5 := U8(d.h)]
  }

  /** The initial buffer is the header followed by zeros. */
  lemma InitialReportLayout(d: Drawable)
    ensures InitialReport(d)[..6] == Header(d)
    ensures forall k :: 6 <= k < REPORT_SIZE ==> InitialReport(d)[k] == 0
  {
  }

  /** The position of payload bit `ri` inside its byte. */
  function BitIndex(ri: nat): (b: nat)
    ensures b < 8
  {
    ri % 8
  }

  /** The report buffer after the encoding loop has done rows `< y` and
      columns `< x` of row y, in the loop's own order: each step ORs the
      mask of bit `ri % 8` into byte `6 + ri / 8` when the pixel is on. */
  ghost function Run(d: Drawable, y: nat, x: nat): (r: seq<byte>)
    requires SourceFits(d) && ReportFits(d) && y <= d.h && x <= d.w && (y == d.h ==> x == 0)
    ensures |r| == REPORT_SIZE
    decreases y, x
  {
    if x == 0 then
      if y == 0 then InitialReport(d) else Run(d, y - 1, d.w)
    else
      PayloadIndexFits(d, x - 1, y);
      var r := Run(d, y, x - 1);
      var ri := Offset(y, x - 1, Stride(d));
      var bit: byte := if PixelOf(d, x - 1, y) then Mask(BitIndex(ri)) else 0;
      r[ri / 8 + 6 := r[ri / 8 + 6] | bit]
  }

  /** One step of the inner loop, as the method writes it. */
  lemma RunStep(d: Drawable, y: nat, x: nat, stride: nat)
    requires SourceFits(d) && ReportFits(d) && y < d.h && x < d.w && stride == Stride(d)
    ensures PixelIndex(d, x, y) < |d.bitmap.data| && Offset(y, x, stride) / 8 + 6 < REPORT_SIZE
    ensures Run(d, y, x + 1)
            == Run(d, y, x)[Offset(y, x, stride) / 8 + 6
                            := Run(d, y, x)[Offset(y, x, stride) / 8 + 6]
                               | (if d.bitmap.data[PixelIndex(d, x, y)] then Mask(BitIndex(Offset(y, x, stride))) else 0)]
  {
    PayloadIndexFits(d, x, y);
    PixelIndexFits(d, x, y);
  }

  /** The loop state after rows `< y` and columns `< x` of row y keeps the
      header and spells the bits packed so far. */
  ghost predicate Spelled(d: Drawable, y: nat, x: nat)
    requires SourceFits(d) && ReportFits(d) && y <= d.h && x <= d.w && (y == d.h ==> x == 0)
  {
    Run(d, y, x)[..6] == Header(d) && BytesSpell(Run(d, y, x), PackedBits(d, y, x))
  }

  /** One step keeps the header and ORs the step's pixel into the spelled
      bits. */
  lemma SpellStep(d: Drawable, y: nat, x: nat)
    requires SourceFits(d) && ReportFits(d) && y < d.h && 0 < x <= d.w
    requires Spelled(d, y, x - 1)
    ensures Spelled(d, y, x)
  {
    PayloadIndexFits(d, x - 1, y);
    var r := Run(d, y, x - 1);
    var ri := Offset(y, x - 1, Stride(d));
    var bits := PackedBits(d, y, x - 1);
    var bit: byte := if PixelOf(d, x - 1, y) then Mask(BitIndex(ri)) else 0;
    var r', bits' := Run(d, y, x), PackedBits(d, y, x);
    LastStep(d, y, x);
    assert r'[..6] == Header(d);
    ByteOr(r, bits, ri, bit, PixelOf(d, x - 1, y), r', bits');
  }

  /** The last step of `Run` and of `PackedBits`, written out. */
  lemma LastStep(d: Drawable, y: nat, x: nat)
    requires SourceFits(d) && ReportFits(d) && y < d.h && 0 < x <= d.w
    ensures var ri := Offset(y, x - 1, Stride(d));
            var on := PixelOf(d, x - 1, y);
            && ri < PAYLOAD_BITS
            && Run(d, y, x) == Run(d, y, x - 1)[ri / 8 + 6 := Run(d, y, x - 1)[ri / 8 + 6] | if on then Mask(BitIndex(ri)) else 0]
            && PackedBits(d, y, x) == PackedBits(d, y, x - 1)[ri := PackedBits(d, y, x - 1)[ri] || on]
            && Run(d, y, x)[..6] == Run(d, y, x - 1)[..6]
  {
    PayloadIndexFits(d, x - 1, y);
    var ri := Offset(y, x - 1, Stride(d));
    assert Run(d, y, x)[..6] == Run(d, y, x - 1)[..6] by {
      assert forall k :: 0 <= k < 6 ==> Run(d, y, x)[k] == Run(d, y, x - 1)[k];
    }
  }

  /** Every state of the loop keeps the header and spells the packed bits. */
  lemma {:induction false} RunSpells(d: Drawable, y: nat, x: nat)
    requires SourceFits(d) && ReportFits(d) && y <= d.h && x <= d.w && (y == d.h ==> x == 0)
    ensures Spelled(d, y, x)
    decreases y, x
  {
    if x == 0 {
      if y == 0 {
        InitialReportLayout(d);
        BytesStart(InitialReport(d));
      } else {
        RunSpells(d, y - 1, d.w);
      }
    } else {
      RunSpells(d, y, x - 1);
      SpellStep(d, y, x);
    }
  }

  /** The loop's final state is the encoded report. */
  lemma RunEncodes(d: Drawable)
    requires SourceFits(d) && ReportFits(d)
    ensures Run(d, d.h, 0) == EncodeReport(d)
  {
    RunSpells(d, d.h, 0);
    PackedEnd(d, Run(d, d.h, 0));
  }

  /** `create_report`: starts from the zeroed report with its header, then
      ORs every chunk pixel into bit `ri % 8` of byte `6 + ri / 8`,
      `ri = x*stride + y`. `(pixel as u8) << (ri % 8)` is the mask of that
      bit or zero (`ShiftIsMask`). The report is a Rust array value,
      modelled as a sequence. */
  method CreateReport(d: Drawable) returns (report: seq<byte>)
    requires SourceFits(d) && ReportFits(d)
    ensures report == EncodeReport(d)
  {
    var r := InitialReport(d);
    var stride := Stride(d);
    for y := 0 to d.h
      invariant r == Run(d, y, 0)
    {
      for x := 0 to d.w
        invariant r == Run(d, y, x)
      {
        var ri := Offset(y, x, stride);
        var pi := PixelIndex(d, x, y);
        RunStep(d, y, x, stride);
        var bit: byte := if d.bitmap.data[pi] then Mask(BitIndex(ri)) else 0;
        r := r[ri / 8 + 6 := r[ri / 8 + 6] | bit];
      }
    }
    report := r;
    RunEncodes(d);
  }

  // ---------------------------------------------------------------------
  // prepare_for_report: clipping

  /** The on-screen part, along one axis, of `size` pixels placed at `pos` on
      a screen `limit` pixels long: where it starts on the screen (`dst`), at
      which bitmap pixel (`src`), and how many pixels (`len`). */
  datatype Span = Span(dst: nat, src: nat, len: nat)

  /** A negative offset may hide at most the whole bitmap: `w -= (-x) as usize`
      underflows (panics) otherwise. */
  predicate OffsetFits(pos: int, size: nat) {
    pos < 0 ==> -pos <= size
  }

  function Visible(pos: int, size: nat, limit: nat): Span
    requires OffsetFits(pos, size)
  {
    var src: nat := if pos < 0 then -pos else 0;
    var dst: nat := if pos < 0 then 0 else Min(pos, limit);
    Span(dst, src, Min(size - src, limit - dst))
  }

  /** Clipping keeps exactly the pixels that land on the screen, each at its
      own screen position. */
  lemma VisibleExact(pos: int, size: nat, limit: nat, i: nat)
    requires OffsetFits(pos, size) && i < size
    ensures var v := Visible(pos, size, limit);
            && ((0 <= pos + i < limit) <==> (v.src <= i < v.src + v.len))
            && (v.src <= i < v.src + v.len ==> v.dst + (i - v.src) == pos + i)
  {
  }

  /** After clipping the span ends inside the screen and inside the bitmap;
      an offset at or past the screen edge leaves nothing. */
  lemma VisibleBounds(pos: int, size: nat, limit: nat)
    requires OffsetFits(pos, size)
    ensures var v := Visible(pos, size, limit);
            && v.dst + v.len <= limit && v.src + v.len <= size
            && (pos < 0 ==> v.src == -pos && v.dst == 0 && v.len == Min(size + pos, limit))
            && (pos >= limit ==> v.len == 0)
  {
  }

  // ---------------------------------------------------------------------
  // prepare_for_report: splitting

  function ChunkCount(cx: Span): nat {
    DivCeil(cx.len, REPORT_SPLIT_SZ)
  }

  /** Chunk `i`: columns `64*i ..` of the clipped rectangle. */
  function ChunkAt(bitmap: Raster, cx: Span, cy: Span, i: nat): Drawable
    requires i < ChunkCount(cx)
  {
    Drawable(bitmap, Min(REPORT_SPLIT_SZ, cx.len - i * REPORT_SPLIT_SZ), cy.len,
             cx.dst + i * REPORT_SPLIT_SZ, cy.dst, cx.src + i * REPORT_SPLIT_SZ, cy.src)
  }

  /** The drawables `prepare_for_report` returns for `bitmap` at (x, y) on a
      `width`×`height` screen. */
  function Chunks(bitmap: Raster, x: int, y: int, width: nat, height: nat): (cs: seq<Drawable>)
    requires OffsetFits(x, bitmap.w) && OffsetFits(y, bitmap.h)
    ensures |cs| == ChunkCount(Visible(x, bitmap.w, width))
  {
    var cx, cy := Visible(x, bitmap.w, width), Visible(y, bitmap.h, height);
    seq(ChunkCount(cx), i requires 0 <= i < ChunkCount(cx) => ChunkAt(bitmap, cx, cy, i))
  }

  function TotalWidth(cs: seq<Drawable>): nat {
    if cs == [] then 0 else TotalWidth(cs[..|cs| - 1]) + cs[|cs| - 1].w
  }

  /** The chunks tile the clipped rectangle left to right: each is 1 to 64
      columns wide, starts 64 columns after the one before on the screen and
      in the bitmap, shares the height and rows, and the widths add up to the
      clipped width. */
  lemma ChunksTile(bitmap: Raster, x: int, y: int, width: nat, height: nat)
    requires OffsetFits(x, bitmap.w) && OffsetFits(y, bitmap.h)
    ensures var cs := Chunks(bitmap, x, y, width, height);
            var cx, cy := Visible(x, bitmap.w, width), Visible(y, bitmap.h, height);
            && TotalWidth(cs) == cx.len
            && forall i :: 0 <= i < |cs| ==>
                 && 1 <= cs[i].w <= REPORT_SPLIT_SZ
                 && (i + 1 < |cs| ==> cs[i].w == REPORT_SPLIT_SZ)
                 && cs[i].dstX == cx.dst + i * REPORT_SPLIT_SZ && cs[i].srcX == cx.src + i * REPORT_SPLIT_SZ
                 && cs[i].h == cy.len && cs[i].dstY == cy.dst && cs[i].srcY == cy.src
                 && cs[i].bitmap == bitmap
  {
    var cs := Chunks(bitmap, x, y, width, height);
    var cx := Visible(x, bitmap.w, width);
    var n := |cs|;
    if n > 0 {
      PrefixWidth(cs, cx, n - 1);
      assert cs[..n] == cs;
    }
  }

  lemma {:induction false} PrefixWidth(cs: seq<Drawable>, cx: Span, i: nat)
    requires |cs| == ChunkCount(cx) && i < |cs|
    requires forall j :: 0 <= j < |cs| ==> cs[j].w == Min(REPORT_SPLIT_SZ, cx.len - j * REPORT_SPLIT_SZ)
    ensures TotalWidth(cs[..i]) == i * REPORT_SPLIT_SZ
    ensures TotalWidth(cs[..i + 1]) == Min(cx.len, (i + 1) * REPORT_SPLIT_SZ)
  {
    if i > 0 {
      PrefixWidth(cs, cx, i - 1);
      assert cs[..i][..i - 1] == cs[..i - 1];
    }
    assert cs[..i + 1][..i] == cs[..i];
  }

  /** A chunk of a valid bitmap clipped to a screen at most 64 rows high
      reads only inside the bitmap and writes only inside the report. */
  lemma ChunksFit(bitmap: Raster, x: int, y: int, width: nat, height: nat, i: nat)
    requires bitmap.Valid() && OffsetFits(x, bitmap.w) && OffsetFits(y, bitmap.h) && height <= 64
    requires i < |Chunks(bitmap, x, y, width, height)|
    ensures var d := Chunks(bitmap, x, y, width, height)[i];
            SourceFits(d) && ReportFits(d) && d.w <= REPORT_SPLIT_SZ && d.h <= 64
  {
    var cx, cy := Visible(x, bitmap.w, width), Visible(y, bitmap.h, height);
    var d := Chunks(bitmap, x, y, width, height)[i];
    assert d == ChunkAt(bitmap, cx, cy, i);
    VisibleBounds(x, bitmap.w, width);
    VisibleBounds(y, bitmap.h, height);
    assert d.srcX + d.w <= bitmap.w && d.srcY + d.h <= bitmap.h && d.h <= 64;
    SmallChunkFits(d);
    InsideFits(d);
  }

  lemma ChunksFitAll(bitmap: Raster, x: int, y: int, width: nat, height: nat)
    requires bitmap.Valid() && OffsetFits(x, bitmap.w) && OffsetFits(y, bitmap.h) && height <= 64
    ensures var cs := Chunks(bitmap, x, y, width, height);
            forall i :: 0 <= i < |cs| ==> SourceFits(cs[i]) && ReportFits(cs[i])
  {
    var cs := Chunks(bitmap, x, y, width, height);
    forall i | 0 <= i < |cs|
      ensures SourceFits(cs[i]) && ReportFits(cs[i])
    {
      ChunksFit(bitmap, x, y, width, height, i);
    }
  }

  /** The reports `draw` sends for `bitmap` at (x, y), in order: one encoded
      report per chunk. */
  function DrawReports(bitmap: Raster, x: int, y: int, width: nat, height: nat): (rs: seq<seq<byte>>)
    requires bitmap.Valid() && OffsetFits(x, bitmap.w) && OffsetFits(y, bitmap.h) && height <= 64
    ensures var cs := Chunks(bitmap, x, y, width, height);
            |rs| == |cs| && forall i :: 0 <= i < |cs| ==> SourceFits(cs[i]) && ReportFits(cs[i]) && rs[i] == EncodeReport(cs[i])
  {
    var cs := Chunks(bitmap, x, y, width, height);
    ChunksFitAll(bitmap, x, y, width, height);
    seq(|cs|, i requires 0 <= i < |cs| => EncodeReport(cs[i]))
  }

  /** A drawable whose source rectangle lies inside a valid bitmap reads only
      inside its bit array. */
  lemma InsideFits(d: Drawable)
    requires d.bitmap.Valid() && d.srcX + d.w <= d.bitmap.w && d.srcY + d.h <= d.bitmap.h
    ensures SourceFits(d)
  {
    if d.w > 0 && d.h > 0 {
      var bw, bh := d.bitmap.w, d.bitmap.h;
      MulMono(d.srcY + d.h - 1, bh - 1, bw);
      assert (bh - 1) * bw == bh * bw - bw;
    }
  }

  /** `prepare_for_report`: moves a negative offset into the source offset,
      crops to the screen and splits into chunks of at most 64 columns. */
  method PrepareForReport(bitmap: Raster, x: int, y: int, width: nat, height: nat) returns (chunks: seq<Drawable>)
    requires OffsetFits(x, bitmap.w) && OffsetFits(y, bitmap.h)
    ensures chunks == Chunks(bitmap, x, y, width, height)
  {
    var w: nat := bitmap.w;
    var h: nat := bitmap.h;
    var dstX: nat, srcX: nat;
    if x < 0 {
      w := w - (-x);
      dstX, srcX := 0, -x;
    } else {
      dstX, srcX := x, 0;
    }
    var dstY: nat, srcY: nat;
    if y < 0 {
      h := h - (-y);
      dstY, srcY := 0, -y;
    } else {
      dstY, srcY := y, 0;
    }
    dstX := Min(dstX, width);
    dstY := Min(dstY, height);
    if dstX + w >= width {
      w := width - dstX;
    }
    if dstY + h >= height {
      h := height - dstY;
    }
    ghost var cx, cy := Visible(x, bitmap.w, width), Visible(y, bitmap.h, height);
    assert cx == Span(dstX, srcX, w) && cy == Span(dstY, srcY, h);
    chunks := Split(bitmap, dstX, srcX, w, dstY, srcY, h);
  }

  /** The splitting loop of `prepare_for_report` over the clipped rectangle:
      chunk `i` covers its columns `64*i ..`. */
  method Split(bitmap: Raster, dstX: nat, srcX: nat, w: nat, dstY: nat, srcY: nat, h: nat)
    returns (chunks: seq<Drawable>)
    ensures var cx, cy := Span(dstX, srcX, w), Span(dstY, srcY, h);
            && |chunks| == ChunkCount(cx)
            && forall i :: 0 <= i < |chunks| ==> chunks[i] == ChunkAt(bitmap, cx, cy, i)
  {
    var splits := DivCeil(w, REPORT_SPLIT_SZ);
    chunks := [];
    for i := 0 to splits
      invariant |chunks| == i
      invariant forall k :: 0 <= k < i ==> chunks[k] == ChunkAt(bitmap, Span(dstX, srcX, w), Span(dstY, srcY, h), k)
    {
      chunks := chunks + [Drawable(bitmap, Min(REPORT_SPLIT_SZ, w - i * REPORT_SPLIT_SZ), h,
                                   dstX + i * REPORT_SPLIT_SZ, dstY, srcX + i * REPORT_SPLIT_SZ, srcY)];
    }
  }

  /** Every chunk send in order, stopping at the first failure: the number of
      successful sends before the first failing one among the first `n`
      (past the end of `oks` a send succeeds). */
  function FirstFailure(oks: seq<bool>, n: nat): (k: nat)
    ensures k <= n
    ensures k < n ==> k < |oks| && !oks[k]
    ensures forall i :: 0 <= i < k && i < |oks| ==> oks[i]
  {
    if n == 0 then 0
    else
      var k := FirstFailure(oks, n - 1);
      if k < n - 1 then k
      else if n - 1 < |oks| && !oks[n - 1] then n - 1
      else n
  }

  lemma TakeOneMore<T>(s: seq<T>, i: nat)
    requires i < |s|
    ensures s[..i + 1] == s[..i] + [s[i]]
  {
  }

  /** The loop of `draw`: prepares the chunks and sends one report per
      chunk, in order, stopping at the first send that fails; `sendOk[i]` is
      the outcome of the i-th send. */
  method SendReports(bitmap: Raster, x: int, y: int, width: nat, height: nat, sendOk: seq<bool>)
    returns (sent: seq<seq<byte>>, res: Outcome)
    requires bitmap.Valid() && OffsetFits(x, bitmap.w) && OffsetFits(y, bitmap.h) && height <= 64
    ensures var rs := DrawReports(bitmap, x, y, width, height);
            var k := FirstFailure(sendOk, |rs|);
            && sent == rs[..Min(k + 1, |rs|)]
            && (res == Pass <==> k == |rs|)
            && (res != Pass ==> res == Fail(IoError))
  {
    var drawables := PrepareForReport(bitmap, x, y, width, height);
    ChunksFitAll(bitmap, x, y, width, height);
    sent, res := SendAll(drawables, sendOk);
    assert DrawReports(bitmap, x, y, width, height) == Encoded(drawables);
  }

  /** The report of each drawable, in order. */
  function Encoded(ds: seq<Drawable>): (rs: seq<seq<byte>>)
    requires forall k :: 0 <= k < |ds| ==> SourceFits(ds[k]) && ReportFits(ds[k])
    ensures |rs| == |ds|
  {
    seq(|ds|, k requires 0 <= k < |ds| => EncodeReport(ds[k]))
  }

  /** The `for drawable in drawables` loop: one report per drawable, in
      order, up to and including the first send that fails. */
  method SendAll(drawables: seq<Drawable>, sendOk: seq<bool>) returns (sent: seq<seq<byte>>, res: Outcome)
    requires forall k :: 0 <= k < |drawables| ==> SourceFits(drawables[k]) && ReportFits(drawables[k])
    ensures var k := FirstFailure(sendOk, |drawables|);
            && sent == Encoded(drawables)[..Min(k + 1, |drawables|)]
            && (res == Pass <==> k == |drawables|)
            && (res != Pass ==> res == Fail(IoError))
  {
    ghost var rs := Encoded(drawables);
    sent := [];
    var i := 0;
    while i < |drawables|
      invariant 0 <= i <= |drawables|
      invariant FirstFailure(sendOk, i) == i
      invariant sent == rs[..i]
    {
      var report := CreateReport(drawables[i]);
      TakeOneMore(rs, i);
      sent := sent + [report];
      if i < |sendOk| && !sendOk[i] {
        assert FirstFailure(sendOk, |drawables|) == i;
        res := Fail(IoError);
        return;
      }
      i := i + 1;
    }
    assert sent == rs[..Min(i + 1, |rs|)];
    res := Pass;
  }
}
