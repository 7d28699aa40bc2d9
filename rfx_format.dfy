/**
 * Pixel format conversion (`rfx_encode_format_rgb`): an interleaved pixel
 * region of `width` x `height` pixels is split into three 64 x 64 planar
 * sample buffers (R, G, B), the last pixel of each row being repeated to
 * the right edge and the last row being repeated to the bottom edge.
 */
module RfxFormat {
  import opened RfxTypes

  /** The six interleavings the converter recognises. */
  datatype PixelFormat = BGRA | RGBA | BGR | RGB | BGR565_LE | RGB565_LE
  {
    /** The two 16-bit 5-6-5 formats, stored as little-endian words. */
    predicate Is565() { BGR565_LE? || RGB565_LE? }

    /** The formats whose bytes, or whose word's high bits, hold blue first. */
    predicate BlueFirst() { BGRA? || BGR? || BGR565_LE? }
  }

  datatype Channel = Red | Green | Blue

  /** The three samples decoded from one source pixel. */
  datatype Rgb = Rgb(r: int, g: int, b: int)
  {
    function Get(c: Channel): int
    {
      match c
      case Red => r
      case Green => g
      case Blue => b
    }
  }

  /** How far `src` advances per pixel in each format. */
  function BytesPerPixel(f: PixelFormat): int
  {
    match f
    case BGRA => 4
    case RGBA => 4
    case BGR => 3
    case RGB => 3
    case BGR565_LE => 2
    case RGB565_LE => 2
  }

  /** An 8-bit sample value. */
  type Sample8 = x: int | 0 <= x < 256

  /** A byte read as a sample, `(sint16) b`. */
  function Value(b: Byte): Sample8 { b as int }

  // The three 5-6-5 channel expressions, on bytes as the converter computes them.

  /** The 5-bit field in the top of the high byte, widened to 8 bits. */
  function High5(hi: Byte): Byte { (hi & 0xF8) | (hi >> 5) }

  /** The 6-bit field straddling both bytes, shifted up by two. */
  function Mid6(lo: Byte, hi: Byte): Byte { ((hi & 0x07) << 5) | ((lo & 0xE0) >> 3) }

  /** The 5-bit field in the bottom of the low byte, widened to 8 bits. */
  function Low5(lo: Byte): Byte { ((lo & 0x1F) << 3) | ((lo >> 2) & 0x07) }

  /**
   * The samples of the pixel whose first byte is `src[s]`: one case per
   * branch of the per-row switch, the 24- and 32-bit formats reading one
   * byte per channel, the 5-6-5 formats a little-endian word.
   */
  function DecodePixel(f: PixelFormat, src: seq<Byte>, s: int): (p: Rgb)
    requires 0 <= s && s + BytesPerPixel(f) <= |src|
    ensures 0 <= p.r < 256 && 0 <= p.g < 256 && 0 <= p.b < 256
  {
    if f.Is565() then Decode565(f, src[s], src[s + 1])
    else DecodeBytes(f, src[s], src[s + 1], src[s + 2])
  }

  /** `BGRA`, `BGR`: blue, green, red; `RGBA`, `RGB`: red, green, blue. */
  function DecodeBytes(f: PixelFormat, b0: Byte, b1: Byte, b2: Byte): (p: Rgb)
    requires !f.Is565()
    ensures 0 <= p.r < 256 && 0 <= p.g < 256 && 0 <= p.b < 256
  {
    if f.BlueFirst() then Rgb(Value(b2), Value(b1), Value(b0))
    else Rgb(Value(b0), Value(b1), Value(b2))
  }

  /** `BGR565_LE`: blue in the high bits; `RGB565_LE`: red in the high bits. */
  function Decode565(f: PixelFormat, lo: Byte, hi: Byte): (p: Rgb)
    requires f.Is565()
    ensures 0 <= p.r < 256 && 0 <= p.g < 256 && 0 <= p.b < 256
  {
    if f.BlueFirst() then Rgb(Value(Low5(lo)), Value(Mid6(lo, hi)), Value(High5(hi)))
    else Rgb(Value(High5(hi)), Value(Mid6(lo, hi)), Value(Low5(lo)))
  }

  /**
   * Independent reading of the 24- and 32-bit formats: the byte of a pixel
   * that holds channel `c` is R, G, B = 0, 1, 2 in the RGB orders and
   * B, G, R = 0, 1, 2 in the BGR orders (the fourth byte is skipped).
   */
  function ChannelByte(f: PixelFormat, c: Channel): int
    requires !f.Is565()
  {
    var rgbOrder := !f.BlueFirst();
    match c
    case Red => if rgbOrder then 0 else 2
    case Green => 1
    case Blue => if rgbOrder then 2 else 0
  }

  lemma ByteFormatChannel(f: PixelFormat, src: seq<Byte>, s: int, c: Channel)
    requires !f.Is565()
    requires 0 <= s && s + BytesPerPixel(f) <= |src|
    ensures 0 <= ChannelByte(f, c) < BytesPerPixel(f)
    ensures DecodePixel(f, src, s).Get(c) == Value(src[s + ChannelByte(f, c)])
  {
  }

  // Independent reading of the 5-6-5 formats, on the little-endian 16-bit word.

  /** The 16-bit pixel word whose low byte comes first. */
  function Word565(lo: Byte, hi: Byte): int { Value(hi) * 256 + Value(lo) }

  /** A 5-bit field widened as `(v << 3) | (v >> 2)`: its top three bits fill the vacated low bits. */
  function Widen5(v: int): int { v * 8 + v / 4 }

  /** The 6-bit field is only shifted, `v << 2`: its low two bits stay zero. */
  function Widen6(v: int): int { v * 4 }

  lemma High5Field(hi: Byte)
    ensures Value(High5(hi)) == Widen5(Value(hi) / 8)
  {
    var a, b := hi >> 3, hi >> 5;
    assert High5(hi) == a * 8 + b;
    assert Value(a) == Value(hi) / 8 && Value(b) == Value(hi) / 32;
    assert Value(a * 8 + b) == Value(a) * 8 + Value(b);
  }

  lemma Low5Field(lo: Byte)
    ensures Value(Low5(lo)) == Widen5(Value(lo) % 32)
  {
    var a, b := lo & 0x1F, (lo >> 2) & 0x07;
    assert Low5(lo) == a * 8 + b;
    assert Value(a) == Value(lo) % 32 && Value(b) == Value(lo) % 32 / 4;
    assert Value(a * 8 + b) == Value(a) * 8 + Value(b);
  }

  lemma Mid6Field(lo: Byte, hi: Byte)
    ensures Value(Mid6(lo, hi)) == Widen6(Value(hi) % 8 * 8 + Value(lo) / 32)
  {
    var a, b := hi & 0x07, lo >> 5;
    Mid6Shape(lo, hi);
    BitsAsInt(hi, lo);
    SmallSumAsInt(a, b);
  }

  lemma Mid6Shape(lo: Byte, hi: Byte)
    ensures Mid6(lo, hi) == (hi & 0x07) * 32 + (lo >> 5) * 4
  {
  }

  lemma BitsAsInt(hi: Byte, lo: Byte)
    ensures Value(hi & 0x07) == Value(hi) % 8 && Value(lo >> 5) == Value(lo) / 32
  {
  }

  lemma SmallSumAsInt(a: Byte, b: Byte)
    requires a < 8 && b < 8
    ensures Value(a * 32 + b * 4) == Value(a) * 32 + Value(b) * 4
  {
  }

  // The fields of the word: red or blue in bits 15..11, green in bits 10..5, the other in bits 4..0.

  lemma TopField(lo: Byte, hi: Byte)
    ensures Value(High5(hi)) == Widen5(Word565(lo, hi) / 2048)
  {
    High5Field(hi);
    WordTop(Value(hi), Value(lo));
  }

  lemma MiddleField(lo: Byte, hi: Byte)
    ensures Value(Mid6(lo, hi)) == Widen6(Word565(lo, hi) / 32 % 64)
  {
    WordMiddle(Value(hi), Value(lo));
    Mid6Field(lo, hi);
  }

  lemma BottomField(lo: Byte, hi: Byte)
    ensures Value(Low5(lo)) == Widen5(Word565(lo, hi) % 32)
  {
    Low5Field(lo);
    WordBottom(Value(hi), Value(lo));
  }

  lemma WordTop(h: int, l: int)
    requires 0 <= h < 256 && 0 <= l < 256
    ensures (h * 256 + l) / 2048 == h / 8
  {
  }

  lemma WordMiddle(h: int, l: int)
    requires 0 <= h < 256 && 0 <= l < 256
    ensures (h * 256 + l) / 32 % 64 == h % 8 * 8 + l / 32
  {
    WordShift(h, l);
    LowFieldMod(h, l / 32);
  }

  lemma WordShift(h: int, l: int)
    requires 0 <= h < 256 && 0 <= l < 256
    ensures (h * 256 + l) / 32 == h * 8 + l / 32
  {
  }

  lemma LowFieldMod(h: int, m: int)
    requires 0 <= h < 256 && 0 <= m < 8
    ensures (h * 8 + m) % 64 == h % 8 * 8 + m
  {
    ModOfSplit(h / 8, h % 8 * 8 + m);
  }

  lemma ModOfSplit(q: int, r: int)
    requires 0 <= r < 64
    ensures (q * 64 + r) % 64 == r
  {
  }

  lemma WordBottom(h: int, l: int)
    requires 0 <= h < 256 && 0 <= l < 256
    ensures (h * 256 + l) % 32 == l % 32
  {
  }

  /**
   * A 5-6-5 pixel decodes to its three word fields, widened: RGB565 takes red
   * from the top field and blue from the bottom one, BGR565 the other way round.
   */
  lemma Packed565Channels(f: PixelFormat, src: seq<Byte>, s: int)
    requires f.Is565()
    requires 0 <= s && s + BytesPerPixel(f) <= |src|
    ensures var w, p := Word565(src[s], src[s + 1]), DecodePixel(f, src, s);
      var top, low := Widen5(w / 2048), Widen5(w % 32);
      p.g == Widen6(w / 32 % 64) &&
      (if f.BlueFirst() then p.r == low && p.b == top else p.r == top && p.b == low)
  {
    TopField(src[s], src[s + 1]);
    MiddleField(src[s], src[s + 1]);
    BottomField(src[s], src[s + 1]);
  }

  /** Widening keeps a 5-bit field's order and spans the whole byte range; a widened 6-bit field tops out at 252. */
  lemma WidenRanges(u: int, v: int)
    requires 0 <= u < v < 64
    ensures v < 32 ==> 0 <= Widen5(u) < Widen5(v) <= 255
    ensures Widen5(0) == 0 && Widen5(31) == 255
    ensures 0 <= Widen6(u) < Widen6(v) <= 252 && Widen6(v) % 4 == 0
  {
  }

  /** An all-ones 5-6-5 pixel is not white: green reaches only 252. */
  lemma AllOnes565(f: PixelFormat)
    requires f.Is565()
    ensures DecodePixel(f, [0xFF, 0xFF], 0) == Rgb(255, 252, 255)
  {
  }

  // The source region and the converted planes.

  /**
   * The interleaved source: row `y` starts at `src[base + y * rowstride]`
   * (`rgb_data + y * rowstride`), and `format` is the context's pixel format.
   */
  datatype Region = Region(src: seq<Byte>, base: int, width: int, height: int, rowstride: int, format: PixelFormat)
  {
    function RowStart(y: int): int { base + y * rowstride }

    /**
     * What the converter relies on without checking it: a region of 1..64
     * pixels each way, every row of it inside `src`, and (by the type) one of
     * the six formats.
     */
    ghost predicate Valid()
    {
      1 <= width <= TileSide && 1 <= height <= TileSide &&
      forall y :: 0 <= y < height ==>
        0 <= RowStart(y) && RowStart(y) + width * BytesPerPixel(format) <= |src|
    }

    function PixelOffset(y: int, x: int): int { RowStart(y) + x * BytesPerPixel(format) }

    /** The pixel in row `y`, column `x` of the region. */
    function PixelAt(y: int, x: int): (p: Rgb)
      requires Valid() && 0 <= y < height && 0 <= x < width
      ensures 0 <= p.r < 256 && 0 <= p.g < 256 && 0 <= p.b < 256
    {
      MulStep(x, width, BytesPerPixel(format));
      DecodePixel(format, src, PixelOffset(y, x))
    }
  }

  lemma MulStep(x: int, w: int, k: int)
    requires 0 <= x < w && 0 <= k
    ensures 0 <= x * k && x * k + k <= w * k
  {
    assert w * k - (x * k + k) == (w - x - 1) * k;
    assert (w - x - 1) * k >= 0;
  }

  /**
   * The sample that tile index `i` of channel `c` ends up holding: the pixel
   * at the same row and column, where rows past the region take its last row
   * and columns past it its last column.
   */
  function PlaneSample(reg: Region, c: Channel, i: int): (v: int)
    requires reg.Valid() && 0 <= i < TileSize
    ensures 0 <= v < 256
  {
    reg.PixelAt(Min(i / TileSide, reg.height - 1), Min(i % TileSide, reg.width - 1)).Get(c)
  }

  /** The three converted planes, R into the Y/R buffer, G into Cb/G, B into Cr/B. */
  function ConvertTile(reg: Region): (t: Planes)
    requires reg.Valid()
    ensures t.Full()
  {
    Planes(seq(TileSize, i requires 0 <= i < TileSize => PlaneSample(reg, Red, i)),
           seq(TileSize, i requires 0 <= i < TileSize => PlaneSample(reg, Green, i)),
           seq(TileSize, i requires 0 <= i < TileSize => PlaneSample(reg, Blue, i)))
  }

  /** Inside the region, a plane holds the pixel's own channel. */
  lemma {:induction false} SampleInside(reg: Region, c: Channel, y: int, x: int)
    requires reg.Valid() && 0 <= y < reg.height && 0 <= x < reg.width
    ensures PlaneSample(reg, c, TileIndex(y, x)) == reg.PixelAt(y, x).Get(c)
  {
    TileIndexSplit(y, x);
  }

  /** Inside the region, in a 24- or 32-bit format, a plane holds the source byte of that channel. */
  lemma {:induction false} SampleInsideBytes(reg: Region, c: Channel, y: int, x: int)
    requires reg.Valid() && !reg.format.Is565()
    requires 0 <= y < reg.height && 0 <= x < reg.width
    ensures 0 <= reg.PixelOffset(y, x) + ChannelByte(reg.format, c) < |reg.src|
    ensures PlaneSample(reg, c, TileIndex(y, x)) ==
      Value(reg.src[reg.RowStart(y) + x * BytesPerPixel(reg.format) + ChannelByte(reg.format, c)])
  {
    SampleInside(reg, c, y, x);
    MulStep(x, reg.width, BytesPerPixel(reg.format));
    ByteFormatChannel(reg.format, reg.src, reg.PixelOffset(y, x), c);
  }

  /** Right of the region, each row repeats its last pixel. */
  lemma {:induction false} HorizontalPadding(reg: Region, c: Channel, y: int, x: int)
    requires reg.Valid() && 0 <= y < reg.height && reg.width <= x < TileSide
    ensures PlaneSample(reg, c, TileIndex(y, x)) == PlaneSample(reg, c, TileIndex(y, reg.width - 1))
  {
    TileIndexSplit(y, x);
    TileIndexSplit(y, reg.width - 1);
  }

  /** Below the region, each row repeats the region's last row, padding included. */
  lemma {:induction false} VerticalPadding(reg: Region, c: Channel, y: int, x: int)
    requires reg.Valid() && reg.height <= y < TileSide && 0 <= x < TileSide
    ensures PlaneSample(reg, c, TileIndex(y, x)) == PlaneSample(reg, c, TileIndex(reg.height - 1, x))
  {
    TileIndexSplit(y, x);
    TileIndexSplit(reg.height - 1, x);
  }

  // The planes rebuilt row by row, the way the converter writes them.

  /** Channel `c` of the region's row `y`, pixel by pixel. */
  function RegionRow(reg: Region, c: Channel, y: int): (row: seq<int>)
    requires reg.Valid() && 0 <= y < reg.height
    ensures |row| == reg.width
  {
    seq(reg.width, x requires 0 <= x < reg.width => reg.PixelAt(y, x).Get(c))
  }

  /** A region row followed by `64 - width` copies of its last sample. */
  function PaddedRow(reg: Region, c: Channel, y: int): (row: seq<int>)
    requires reg.Valid() && 0 <= y < reg.height
    ensures |row| == TileSide
  {
    var pixels := RegionRow(reg, c, y);
    pixels + seq(TileSide - reg.width, _ => pixels[reg.width - 1])
  }

  /**
   * The first `n` rows of a plane: each row inside the region padded to the
   * right edge, each row below it a copy of the last padded row.  They agree
   * with `PlaneSample` at every index.
   */
  function PlaneRows(reg: Region, c: Channel, n: int): (p: seq<int>)
    requires reg.Valid() && 0 <= n <= TileSide
    ensures |p| == TileIndex(n, 0)
    ensures forall i :: 0 <= i < |p| ==> p[i] == PlaneSample(reg, c, i)
  {
    if n == 0 then []
    else
      var y := n - 1;
      RowMatches(reg, c, y);
      PlaneRows(reg, c, y) + PaddedRow(reg, c, Min(y, reg.height - 1))
  }

  /** Padded row `min(y, height - 1)` holds, column by column, the samples at tile indices `y * 64 ..`. */
  lemma RowMatches(reg: Region, c: Channel, y: int)
    requires reg.Valid() && 0 <= y < TileSide
    ensures forall i :: TileIndex(y, 0) <= i < TileIndex(y, 0) + TileSide ==>
      PlaneSample(reg, c, i) == PaddedRow(reg, c, Min(y, reg.height - 1))[i - TileIndex(y, 0)]
  {
    forall i | TileIndex(y, 0) <= i < TileIndex(y, 0) + TileSide
      ensures PlaneSample(reg, c, i) == PaddedRow(reg, c, Min(y, reg.height - 1))[i - TileIndex(y, 0)]
    {
      RowSampleAt(reg, c, y, i);
    }
  }

  lemma {:induction false} RowSampleAt(reg: Region, c: Channel, y: int, i: int)
    requires reg.Valid() && 0 <= y < TileSide && TileIndex(y, 0) <= i < TileIndex(y, 0) + TileSide
    ensures PlaneSample(reg, c, i) == PaddedRow(reg, c, Min(y, reg.height - 1))[i - TileIndex(y, 0)]
  {
    RowOfIndex(y, i);
    PaddedRowAt(reg, c, Min(y, reg.height - 1), i - TileIndex(y, 0));
  }

  /** Column `x` of a padded row is the pixel at column `min(x, width - 1)`. */
  lemma {:induction false} PaddedRowAt(reg: Region, c: Channel, y: int, x: int)
    requires reg.Valid() && 0 <= y < reg.height && 0 <= x < TileSide
    ensures PaddedRow(reg, c, y)[x] == reg.PixelAt(y, Min(x, reg.width - 1)).Get(c)
  {
    var row := RegionRow(reg, c, y);
    if x < reg.width {
      assert PaddedRow(reg, c, y)[x] == row[x];
    } else {
      assert PaddedRow(reg, c, y)[x] == row[reg.width - 1];
    }
  }

  /** The 64 rows rebuilt one by one are the planes of `ConvertTile`. */
  lemma {:induction false} PlaneRowsTile(reg: Region)
    requires reg.Valid()
    ensures ConvertTile(reg) == Planes(PlaneRows(reg, Red, TileSide), PlaneRows(reg, Green, TileSide), PlaneRows(reg, Blue, TileSide))
  {
    var t := ConvertTile(reg);
    assert t.yr == PlaneRows(reg, Red, TileSide);
    assert t.cbg == PlaneRows(reg, Green, TileSide);
    assert t.crb == PlaneRows(reg, Blue, TileSide);
  }

  // The converter itself.

  /** The first `n` samples of each buffer hold their converted values. */
  ghost predicate Converted(reg: Region, rBuf: array<Sint16>, gBuf: array<Sint16>, bBuf: array<Sint16>, n: int)
    requires reg.Valid() && 0 <= n <= TileSize
    requires rBuf.Length == TileSize && gBuf.Length == TileSize && bBuf.Length == TileSize
    reads rBuf, gBuf, bBuf
  {
    PlaneConverted(reg, rBuf, Red, n) && PlaneConverted(reg, gBuf, Green, n) && PlaneConverted(reg, bBuf, Blue, n)
  }

  /** The first `n` samples of `buf` hold channel `c` converted. */
  ghost predicate PlaneConverted(reg: Region, buf: array<Sint16>, c: Channel, n: int)
    requires reg.Valid() && 0 <= n <= TileSize && buf.Length == TileSize
    reads buf
  {
    forall i :: 0 <= i < n ==> buf[i] == PlaneSample(reg, c, i)
  }

  /** `*r_buf++ = r; *g_buf++ = g; *b_buf++ = b;` with the values the next tile index is due. */
  method StoreSample(reg: Region, rBuf: array<Sint16>, gBuf: array<Sint16>, bBuf: array<Sint16>, p: int,
                     r: Sint16, g: Sint16, b: Sint16)
    requires reg.Valid() && 0 <= p < TileSize
    requires rBuf.Length == TileSize && gBuf.Length == TileSize && bBuf.Length == TileSize
    requires rBuf != gBuf && gBuf != bBuf && rBuf != bBuf
    requires Converted(reg, rBuf, gBuf, bBuf, p)
    requires r == PlaneSample(reg, Red, p) && g == PlaneSample(reg, Green, p) && b == PlaneSample(reg, Blue, p)
    modifies rBuf, gBuf, bBuf
    ensures Converted(reg, rBuf, gBuf, bBuf, p + 1)
    ensures forall i :: 0 <= i < TileSize && i != p ==>
      rBuf[i] == old(rBuf[i]) && gBuf[i] == old(gBuf[i]) && bBuf[i] == old(bBuf[i])
  {
    rBuf[p] := r;
    gBuf[p] := g;
    bBuf[p] := b;
  }

  /**
   * The pixel loop of `rfx_encode_format_rgb` for row `y`, one case of the
   * per-format switch per pixel.  `p` is the common offset of the `r_buf`,
   * `g_buf` and `b_buf` write pointers, `s` that of the `src` read pointer.
   */
  method ConvertPixels(reg: Region, rBuf: array<Sint16>, gBuf: array<Sint16>, bBuf: array<Sint16>, y: int)
    requires reg.Valid() && 0 <= y < reg.height
    requires rBuf.Length == TileSize && gBuf.Length == TileSize && bBuf.Length == TileSize
    requires rBuf != gBuf && gBuf != bBuf && rBuf != bBuf
    requires Converted(reg, rBuf, gBuf, bBuf, TileIndex(y, 0))
    modifies rBuf, gBuf, bBuf
    ensures Converted(reg, rBuf, gBuf, bBuf, TileIndex(y, reg.width))
  {
    var bpp := BytesPerPixel(reg.format);
    var p := TileIndex(y, 0);
    var s := reg.RowStart(y);
    var x := 0;
    while x < reg.width
      invariant 0 <= x <= reg.width
      invariant p == TileIndex(y, x) && s == reg.PixelOffset(y, x)
      invariant Converted(reg, rBuf, gBuf, bBuf, p)
    {
      MulStep(x, reg.width, bpp);
      var px := DecodePixel(reg.format, reg.src, s);
      SampleInside(reg, Red, y, x);
      SampleInside(reg, Green, y, x);
      SampleInside(reg, Blue, y, x);
      StoreSample(reg, rBuf, gBuf, bBuf, p, px.r, px.g, px.b);
      p, s, x := p + 1, s + bpp, x + 1;
    }
  }

  /**
   * The horizontal fill of `rfx_encode_format_rgb` for row `y`: when the
   * region is narrower than the tile, the row's last samples are repeated
   * `x_exceed` times.
   */
  method FillRow(reg: Region, rBuf: array<Sint16>, gBuf: array<Sint16>, bBuf: array<Sint16>, y: int)
    requires reg.Valid() && 0 <= y < reg.height
    requires rBuf.Length == TileSize && gBuf.Length == TileSize && bBuf.Length == TileSize
    requires rBuf != gBuf && gBuf != bBuf && rBuf != bBuf
    requires Converted(reg, rBuf, gBuf, bBuf, TileIndex(y, reg.width))
    modifies rBuf, gBuf, bBuf
    ensures Converted(reg, rBuf, gBuf, bBuf, TileIndex(y + 1, 0))
  {
    var xExceed := TileSide - reg.width;
    var p := TileIndex(y, reg.width);
    if xExceed > 0 {
      var r, g, b := rBuf[p - 1], gBuf[p - 1], bBuf[p - 1];
      var x := 0;
      while x < xExceed
        invariant 0 <= x <= xExceed
        invariant p == TileIndex(y, reg.width + x)
        invariant Converted(reg, rBuf, gBuf, bBuf, p)
        invariant r == PlaneSample(reg, Red, TileIndex(y, reg.width - 1))
        invariant g == PlaneSample(reg, Green, TileIndex(y, reg.width - 1))
        invariant b == PlaneSample(reg, Blue, TileIndex(y, reg.width - 1))
      {
        PadSample(reg, rBuf, gBuf, bBuf, y, reg.width + x, r, g, b);
        p, x := p + 1, x + 1;
      }
    }
  }

  /** One step of the horizontal fill: tile column `x` of row `y` gets the row's last pixel. */
  method PadSample(reg: Region, rBuf: array<Sint16>, gBuf: array<Sint16>, bBuf: array<Sint16>, y: int, x: int,
                   r: Sint16, g: Sint16, b: Sint16)
    requires reg.Valid() && 0 <= y < reg.height && reg.width <= x < TileSide
    requires rBuf.Length == TileSize && gBuf.Length == TileSize && bBuf.Length == TileSize
    requires rBuf != gBuf && gBuf != bBuf && rBuf != bBuf
    requires Converted(reg, rBuf, gBuf, bBuf, TileIndex(y, x))
    requires r == PlaneSample(reg, Red, TileIndex(y, reg.width - 1))
    requires g == PlaneSample(reg, Green, TileIndex(y, reg.width - 1))
    requires b == PlaneSample(reg, Blue, TileIndex(y, reg.width - 1))
    modifies rBuf, gBuf, bBuf
    ensures Converted(reg, rBuf, gBuf, bBuf, TileIndex(y, x) + 1)
  {
    HorizontalPadding(reg, Red, y, x);
    HorizontalPadding(reg, Green, y, x);
    HorizontalPadding(reg, Blue, y, x);
    StoreSample(reg, rBuf, gBuf, bBuf, TileIndex(y, x), r, g, b);
  }

  /**
   * One plane's share of one step of the vertical fill of
   * `rfx_encode_format_rgb`: the row at `p` becomes a copy of the region's
   * last row, `memcpy(buf + p, buf + last, 64 * sizeof(sint16))`.
   */
  method CopyLastRow(reg: Region, buf: array<Sint16>, c: Channel, y: int)
    requires reg.Valid() && reg.height <= y < TileSide && buf.Length == TileSize
    requires PlaneConverted(reg, buf, c, TileIndex(y, 0))
    modifies buf
    ensures PlaneConverted(reg, buf, c, TileIndex(y + 1, 0))
  {
    var p := TileIndex(y, 0);
    var last := TileIndex(reg.height - 1, 0);
    RowRepeatsLast(reg, c, y);
    forall i | p <= i < p + TileSide {
      buf[i] := buf[last + i - p];
    }
  }

  /** Row `y` below the region holds, column by column, the samples of the region's last row. */
  lemma RowRepeatsLast(reg: Region, c: Channel, y: int)
    requires reg.Valid() && reg.height <= y < TileSide
    ensures forall i :: TileIndex(y, 0) <= i < TileIndex(y, 0) + TileSide ==>
      PlaneSample(reg, c, i) == PlaneSample(reg, c, TileIndex(reg.height - 1, 0) + i - TileIndex(y, 0))
  {
    var p, last := TileIndex(y, 0), TileIndex(reg.height - 1, 0);
    forall i | p <= i < p + TileSide
      ensures PlaneSample(reg, c, i) == PlaneSample(reg, c, last + i - p)
    {
      VerticalPadding(reg, c, y, i - p);
      assert TileIndex(y, i - p) == i && TileIndex(reg.height - 1, i - p) == last + i - p;
    }
  }

  /** A fully converted tile is the whole of `ConvertTile`. */
  lemma AllConverted(reg: Region, rBuf: array<Sint16>, gBuf: array<Sint16>, bBuf: array<Sint16>)
    requires reg.Valid()
    requires rBuf.Length == TileSize && gBuf.Length == TileSize && bBuf.Length == TileSize
    requires Converted(reg, rBuf, gBuf, bBuf, TileSize)
    ensures Planes(rBuf[..], gBuf[..], bBuf[..]) == ConvertTile(reg)
  {
    assert rBuf[..] == ConvertTile(reg).yr;
    assert gBuf[..] == ConvertTile(reg).cbg;
    assert bBuf[..] == ConvertTile(reg).crb;
  }

  /**
   * `rfx_encode_format_rgb`: converts the region row by row into the three
   * planes, then repeats the last row down to the bottom edge.  Nothing but
   * the three planes is written.
   */
  method EncodeFormatRgb(reg: Region, rBuf: array<Sint16>, gBuf: array<Sint16>, bBuf: array<Sint16>)
    requires reg.Valid()
    requires rBuf.Length == TileSize && gBuf.Length == TileSize && bBuf.Length == TileSize
    requires rBuf != gBuf && gBuf != bBuf && rBuf != bBuf
    modifies rBuf, gBuf, bBuf
    ensures Planes(rBuf[..], gBuf[..], bBuf[..]) == ConvertTile(reg)
  {
    var yExceed := TileSide - reg.height;
    var y := 0;
    while y < reg.height
      invariant 0 <= y <= reg.height
      invariant Converted(reg, rBuf, gBuf, bBuf, TileIndex(y, 0))
    {
      ConvertPixels(reg, rBuf, gBuf, bBuf, y);
      FillRow(reg, rBuf, gBuf, bBuf, y);
      y := y + 1;
    }
    while yExceed > 0
      invariant 0 <= yExceed <= TileSide - reg.height
      invariant Converted(reg, rBuf, gBuf, bBuf, TileIndex(TileSide - yExceed, 0))
    {
      CopyLastRow(reg, rBuf, Red, TileSide - yExceed);
      CopyLastRow(reg, gBuf, Green, TileSide - yExceed);
      CopyLastRow(reg, bBuf, Blue, TileSide - yExceed);
      yExceed := yExceed - 1;
    }
    AllConverted(reg, rBuf, gBuf, bBuf);
  }
}
