/**
 * The colour space transform (`rfx_encode_rgb_to_ycbcr`): the three planes
 * are turned in place from R, G, B samples into Y, Cb, Cr samples in 11.5
 * fixed point (the stored integer is 32 times the value), using only shifts
 * and adds, with luma offset by -4096 and every output clamped to
 * [-4096, 4095].
 *
 * `v << k` is written `v * 2^k`; `v >> k` is written `v / 2^k`, which in
 * Dafny rounds toward minus infinity for a positive divisor, as an
 * arithmetic right shift of a negative `sint16` does.
 */
module RfxColor {
  import opened RfxTypes

  const ClampLow: int := -4096
  const ClampHigh: int := 4095
  const LumaOffset: int := 4096

  // The nine shift/add groups of the transform, one per input and output.

  /** 0.299 << 5 = 1001.10010001b */
  function LumaR(r: int): int { r * 8 + r + r / 2 + r / 16 + r / 128 }
  /** 0.587 << 5 = 10010.11001000b */
  function LumaG(g: int): int { g * 16 + g * 2 + g / 2 + g / 4 + g / 32 }
  /** 0.114 << 5 = 11.10100101b */
  function LumaB(b: int): int { b * 2 + b + b / 2 + b / 8 + b / 64 + b / 128 }
  /** 0.168935 << 5 = 101.01100111b */
  function CbR(r: int): int { r * 4 + r + r / 4 + r / 8 + r / 32 }
  /** 0.331665 << 5 = 1010.10011100b */
  function CbG(g: int): int { g * 8 + g * 2 + g / 2 + g / 16 + g / 32 + g / 64 }
  /** 0.50059 << 5 = 10000.00000100b */
  function CbB(b: int): int { b * 16 + b / 64 }
  /** 0.499813 << 5 = 1111.11111110b */
  function CrR(r: int): int { r * 16 - r / 128 }
  /** 0.418531 << 5 = 1101.01100100b */
  function CrG(g: int): int { g * 8 + g * 4 + g + g / 4 + g / 8 + g / 64 }
  /** 0.081282 << 5 = 10.10011001b */
  function CrB(b: int): int { b * 2 + b / 2 + b / 16 + b / 32 + b / 128 }

  /** The unclamped luma, before the -4096 offset. */
  function LumaSum(r: int, g: int, b: int): int { LumaR(r) + LumaG(g) + LumaB(b) }
  function CbSum(r: int, g: int, b: int): int { 0 - CbR(r) - CbG(g) + CbB(b) }
  function CrSum(r: int, g: int, b: int): int { CrR(r) - CrG(g) - CrB(b) }

  /** Assigning an `int` to a `sint16` keeps its low 16 bits, two's complement. */
  function ToSint16(v: int): (s: Sint16)
    ensures -0x8000 <= v < 0x8000 ==> s == v
  {
    (v + 0x8000) % 0x1_0000 - 0x8000
  }

  /** `MINMAX(v, lo, hi)`. */
  function MinMax(v: int, lo: int, hi: int): (c: int)
    requires lo <= hi
    ensures lo <= c <= hi
    ensures c == v || (v < lo && c == lo) || (hi < v && c == hi)
  {
    if v < lo then lo else if v > hi then hi else v
  }

  datatype YCbCr = YCbCr(y: Sint16, cb: Sint16, cr: Sint16)

  /**
   * One iteration of the transform loop: the three sums are stored into the
   * `sint16` locals `y`, `cb`, `cr`, then luma is offset and all three are
   * clamped.  Every output lies in [-4096, 4095], whatever the inputs.
   */
  function RgbToYCbCrSample(r: Sint16, g: Sint16, b: Sint16): (o: YCbCr)
    ensures ClampLow <= o.y <= ClampHigh && ClampLow <= o.cb <= ClampHigh && ClampLow <= o.cr <= ClampHigh
  {
    YCbCr(MinMax(ToSint16(LumaSum(r, g, b)) - LumaOffset, ClampLow, ClampHigh),
          MinMax(ToSint16(CbSum(r, g, b)), ClampLow, ClampHigh),
          MinMax(ToSint16(CrSum(r, g, b)), ClampLow, ClampHigh))
  }

  /** Each group is monotone in its input, so over [0, 255] it ranges between its values at 0 and at 255. */
  lemma GroupRanges(r: int, g: int, b: int)
    requires 0 <= r < 256 && 0 <= g < 256 && 0 <= b < 256
    ensures 0 <= LumaR(r) <= 2438 && 0 <= LumaG(g) <= 4787 && 0 <= LumaB(b) <= 927
    ensures 0 <= CbR(r) <= 1376 && 0 <= CbG(g) <= 2702 && 0 <= CbB(b) <= 4083
    ensures 0 <= CrR(r) <= 4079 && 0 <= CrG(g) <= 3412 && 0 <= CrB(b) <= 660
  {
    LumaRRange(r); LumaGRange(g); LumaBRange(b);
    CbRRange(r); CbGRange(g); CbBRange(b);
    CrRRange(r); CrGRange(g); CrBRange(b);
  }

  lemma LumaRRange(r: int) requires 0 <= r < 256 ensures 0 <= LumaR(r) <= 2438 {}
  lemma LumaGRange(g: int) requires 0 <= g < 256 ensures 0 <= LumaG(g) <= 4787 {}
  lemma LumaBRange(b: int) requires 0 <= b < 256 ensures 0 <= LumaB(b) <= 927 {}
  lemma CbRRange(r: int) requires 0 <= r < 256 ensures 0 <= CbR(r) <= 1376 {}
  lemma CbGRange(g: int) requires 0 <= g < 256 ensures 0 <= CbG(g) <= 2702 {}
  lemma CbBRange(b: int) requires 0 <= b < 256 ensures 0 <= CbB(b) <= 4083 {}
  lemma CrRRange(r: int) requires 0 <= r < 256 ensures 0 <= CrR(r) <= 4079 {}
  lemma CrGRange(g: int) requires 0 <= g < 256 ensures 0 <= CrG(g) <= 3412 {}
  lemma CrBRange(b: int) requires 0 <= b < 256 ensures 0 <= CrB(b) <= 660 {}

  /**
   * For 8-bit inputs, the only ones format conversion produces, no sum wraps
   * and no clamp binds: luma before the offset lies in [0, 8152], Cb in
   * [-4078, 4083], Cr in [-4072, 4079], and the outputs are the plain sums.
   */
  lemma {:induction false} PixelSampleUnclamped(r: int, g: int, b: int)
    requires 0 <= r < 256 && 0 <= g < 256 && 0 <= b < 256
    ensures 0 <= LumaSum(r, g, b) <= 8152
    ensures -4078 <= CbSum(r, g, b) <= 4083
    ensures -4072 <= CrSum(r, g, b) <= 4079
    ensures RgbToYCbCrSample(r, g, b) == YCbCr(LumaSum(r, g, b) - LumaOffset, CbSum(r, g, b), CrSum(r, g, b))
  {
    GroupRanges(r, g, b);
  }

  /** Black reaches the luma clamp's lower bound, with zero chroma. */
  lemma BlackSample()
    ensures RgbToYCbCrSample(0, 0, 0) == YCbCr(-4096, 0, 0)
  {
    BlackSums(0, 0, 0);
  }

  /** `BlackSample` at the single point (0, 0, 0), written as a range so the solver unfolds the sums once, symbolically. */
  lemma BlackSums(r: int, g: int, b: int)
    requires 0 <= r < 1 && 0 <= g < 1 && 0 <= b < 1
    ensures RgbToYCbCrSample(r, g, b) == YCbCr(-4096, 0, 0)
  {
    PixelSampleUnclamped(r, g, b);
  }

  /** White stays below the luma clamp's upper bound (8152 - 4096 = 4056), with chroma 5 and 7. */
  lemma WhiteSample()
    ensures RgbToYCbCrSample(255, 255, 255) == YCbCr(4056, 5, 7)
  {
    WhiteSums(255, 255, 255);
  }

  /** `WhiteSample` at the single point (255, 255, 255), written as a range so the solver unfolds the sums once, symbolically. */
  lemma WhiteSums(r: int, g: int, b: int)
    requires 255 <= r < 256 && 255 <= g < 256 && 255 <= b < 256
    ensures RgbToYCbCrSample(r, g, b) == YCbCr(4056, 5, 7)
  {
    assert r == 255 && g == 255 && b == 255;
    assert LumaR(r) == 2438 && LumaG(g) == 4787 && LumaB(b) == 927;
    assert CbR(r) == 1376 && CbG(g) == 2702 && CbB(b) == 4083;
    assert CrR(r) == 4079 && CrG(g) == 3412 && CrB(b) == 660;
    PixelSampleUnclamped(r, g, b);
  }

  /**
   * A grey level `v` has luma within 9/32 below `v - 128` (stored scaled by 32)
   * and chroma in [0, 5/32] and [0, 7/32]: the shift/add coefficients sum to
   * exactly 1, 0 and 0, and only the truncated terms are lost.
   */
  lemma {:induction false} GreySample(v: int)
    requires 0 <= v < 256
    ensures var o := RgbToYCbCrSample(v, v, v);
      32 * v - 9 - LumaOffset <= o.y <= 32 * v - LumaOffset && 0 <= o.cb <= 5 && 0 <= o.cr <= 7
  {
    PixelSampleUnclamped(v, v, v);
  }

  /** The transform of a whole tile, sample by sample. */
  function YCbCrTile(t: Planes): (o: Planes)
    requires t.Full()
    ensures o.Full()
    ensures forall i :: 0 <= i < TileSize ==>
      ClampLow <= o.yr[i] <= ClampHigh && ClampLow <= o.cbg[i] <= ClampHigh && ClampLow <= o.crb[i] <= ClampHigh
  {
    Planes(seq(TileSize, i requires 0 <= i < TileSize => RgbToYCbCrSample(t.yr[i], t.cbg[i], t.crb[i]).y),
           seq(TileSize, i requires 0 <= i < TileSize => RgbToYCbCrSample(t.yr[i], t.cbg[i], t.crb[i]).cb),
           seq(TileSize, i requires 0 <= i < TileSize => RgbToYCbCrSample(t.yr[i], t.cbg[i], t.crb[i]).cr))
  }

  /** Output sample `i` of every plane depends only on input sample `i` of the three planes. */
  lemma TileLocality(t: Planes, u: Planes, i: int)
    requires t.Full() && u.Full() && 0 <= i < TileSize
    requires t.yr[i] == u.yr[i] && t.cbg[i] == u.cbg[i] && t.crb[i] == u.crb[i]
    ensures YCbCrTile(t).yr[i] == YCbCrTile(u).yr[i]
    ensures YCbCrTile(t).cbg[i] == YCbCrTile(u).cbg[i]
    ensures YCbCrTile(t).crb[i] == YCbCrTile(u).crb[i]
  {
  }

  /** The tile after the loop body has run for index `i`: sample `i` of each plane replaced by its transform. */
  function Step(p: Planes, i: int): (q: Planes)
    requires 0 <= i < |p.yr| == |p.cbg| == |p.crb|
    ensures |q.yr| == |p.yr| && |q.cbg| == |p.cbg| && |q.crb| == |p.crb|
  {
    Put(p, i, RgbToYCbCrSample(p.yr[i], p.cbg[i], p.crb[i]))
  }

  function Put(p: Planes, i: int, o: YCbCr): Planes
    requires 0 <= i < |p.yr| == |p.cbg| == |p.crb|
  {
    Planes(p.yr[i := o.y], p.cbg[i := o.cb], p.crb[i := o.cr])
  }

  /** The loop invariant: the first `n` samples are transformed from `t`, the rest are still those of `t`. */
  ghost predicate TransformedUpTo(t: Planes, p: Planes, n: int)
    requires t.Full() && p.Full() && 0 <= n <= TileSize
  {
    p.yr[n..] == t.yr[n..] && p.cbg[n..] == t.cbg[n..] && p.crb[n..] == t.crb[n..] &&
    forall k :: 0 <= k < n ==>
      var o := RgbToYCbCrSample(t.yr[k], t.cbg[k], t.crb[k]);
      p.yr[k] == o.y && p.cbg[k] == o.cb && p.crb[k] == o.cr
  }

  /** One more iteration extends the transformed prefix by one sample. */
  lemma TransformedStep(t: Planes, p: Planes, i: int)
    requires t.Full() && p.Full() && 0 <= i < TileSize && TransformedUpTo(t, p, i)
    ensures Step(p, i).Full() && TransformedUpTo(t, Step(p, i), i + 1)
  {
    var q := Step(p, i);
    assert p.yr[i] == t.yr[i] && p.cbg[i] == t.cbg[i] && p.crb[i] == t.crb[i];
    assert q.yr[i + 1..] == p.yr[i + 1..];
    assert q.cbg[i + 1..] == p.cbg[i + 1..];
    assert q.crb[i + 1..] == p.crb[i + 1..];
  }

  /** With every sample transformed, the planes are the transform of the whole tile. */
  lemma TransformedAll(t: Planes, p: Planes)
    requires t.Full() && p.Full() && TransformedUpTo(t, p, TileSize)
    ensures p == YCbCrTile(t)
  {
    SamplewiseEqual(p, YCbCrTile(t));
  }

  /** The body of the transform loop for index `i`: reads the three samples, writes the three results. */
  method TransformSample(yR: array<Sint16>, cbG: array<Sint16>, crB: array<Sint16>, i: int)
    requires 0 <= i < yR.Length == cbG.Length == crB.Length
    requires yR != cbG && cbG != crB && yR != crB
    modifies yR, cbG, crB
    ensures Planes(yR[..], cbG[..], crB[..]) == Step(old(Planes(yR[..], cbG[..], crB[..])), i)
  {
    var o := RgbToYCbCrSample(yR[i], cbG[i], crB[i]);
    Store(yR, cbG, crB, i, o);
  }

  method Store(yR: array<Sint16>, cbG: array<Sint16>, crB: array<Sint16>, i: int, o: YCbCr)
    requires 0 <= i < yR.Length == cbG.Length == crB.Length
    requires yR != cbG && cbG != crB && yR != crB
    modifies yR, cbG, crB
    ensures Planes(yR[..], cbG[..], crB[..]) == Put(old(Planes(yR[..], cbG[..], crB[..])), i, o)
  {
    yR[i], cbG[i], crB[i] := o.y, o.cb, o.cr;
  }

  /**
   * `rfx_encode_rgb_to_ycbcr`: all 4096 samples of the three planes are
   * transformed in place, each from the three samples at its own index.
   */
  method RgbToYCbCr(yR: array<Sint16>, cbG: array<Sint16>, crB: array<Sint16>)
    requires yR.Length == TileSize && cbG.Length == TileSize && crB.Length == TileSize
    requires yR != cbG && cbG != crB && yR != crB
    modifies yR, cbG, crB
    ensures Planes(yR[..], cbG[..], crB[..]) == YCbCrTile(old(Planes(yR[..], cbG[..], crB[..])))
  {
    ghost var t := Planes(yR[..], cbG[..], crB[..]);
    for i := 0 to TileSize
      invariant TransformedUpTo(t, Planes(yR[..], cbG[..], crB[..]), i)
    {
      TransformedStep(t, Planes(yR[..], cbG[..], crB[..]), i);
      TransformSample(yR, cbG, crB, i);
    }
    TransformedAll(t, Planes(yR[..], cbG[..], crB[..]));
  }

  lemma SamplewiseEqual(a: Planes, b: Planes)
    requires a.Full() && b.Full()
    requires forall k :: 0 <= k < TileSize ==> a.yr[k] == b.yr[k] && a.cbg[k] == b.cbg[k] && a.crb[k] == b.crb[k]
    ensures a == b
  {
    assert a.yr == b.yr && a.cbg == b.cbg && a.crb == b.crb;
  }
}
