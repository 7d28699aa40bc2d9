/**
 * The tile encoder's context and its two entry points: the component
 * encoder (`rfx_encode_component`), which runs the four stages on one plane
 * and writes its fragment into a destination buffer, and `rfx_encode_rgb`,
 * which converts a pixel region, transforms it to Y, Cb, Cr and appends the
 * three fragments, in that order, to the output stream.
 */
module RfxEncode {
  import opened RfxTypes
  import opened RfxFormat
  import opened RfxColor
  import opened RfxComponent
  import opened RfxStream

  /** The spare bytes the stream is made to hold before each plane is encoded. */
  const MinSpare: int := 4096

  /**
   * The capacities `stream_check_size(s, MinSpare)` may leave a plane's
   * encoder when the stream had `left` bytes left: never less than before,
   * at least `MinSpare`, and exactly `left` when that was already enough.
   */
  predicate Grants(left: int, cap: int)
  {
    cap >= left && cap >= MinSpare && (left >= MinSpare ==> cap == left)
  }

  /** The least capacity `stream_check_size` may leave: the stream grown to just `MinSpare` spare bytes. */
  function Reserve(left: int): (n: int)
    ensures Grants(left, n)
    ensures forall cap :: Grants(left, cap) ==> n <= cap
  {
    Max(left, MinSpare)
  }

  /** The capacities the Y, Cb and Cr encoders are handed, in that order. */
  datatype Capacities = Capacities(y: nat, cb: nat, cr: nat)

  datatype Fragments = Fragments(y: seq<Byte>, cb: seq<Byte>, cr: seq<Byte>)

  /** The fragments of a transformed tile, each plane encoded into the capacity it is handed. */
  function EncodeTile(st: Stages, mode: EntropyMode, yQuants: seq<Uint32>, cbQuants: seq<Uint32>,
                      crQuants: seq<Uint32>, planes: Planes, caps: Capacities): (f: Fragments)
    requires st.Valid() && planes.Full()
    ensures |f.y| <= caps.y && |f.cb| <= caps.cb && |f.cr| <= caps.cr
  {
    Fragments(Fragment(st, mode, yQuants, planes.yr, caps.y),
              Fragment(st, mode, cbQuants, planes.cbg, caps.cb),
              Fragment(st, mode, crQuants, planes.crb, caps.cr))
  }

  /**
   * The capacities `rfx_encode_rgb` can hand out for fragments `f` when the
   * stream had `left` bytes left: Y's is granted from `left`, Cb's from what
   * Y left, Cr's from what Cb left.
   */
  predicate TileGrants(left: int, caps: Capacities, f: Fragments)
  {
    Grants(left, caps.y) && Grants(caps.y - |f.y|, caps.cb) && Grants(caps.cb - |f.cb|, caps.cr)
  }

  /** The bytes the three `stream_check_size` calls of one tile add to the stream. */
  function Growth(left: int, caps: Capacities, f: Fragments): int
  {
    (caps.y - left) + (caps.cb - (caps.y - |f.y|)) + (caps.cr - (caps.cb - |f.cb|))
  }

  /**
   * One tile appends what the stream had left plus what it grew by, less
   * what Cr leaves over; and the stream grows only when a plane step finds
   * fewer than `MinSpare` bytes left.
   */
  lemma {:induction false} TileAppendBound(st: Stages, mode: EntropyMode, yQuants: seq<Uint32>, cbQuants: seq<Uint32>,
                                            crQuants: seq<Uint32>, planes: Planes, left: int, caps: Capacities)
    requires st.Valid() && planes.Full() && left >= 0
    requires TileGrants(left, caps, EncodeTile(st, mode, yQuants, cbQuants, crQuants, planes, caps))
    ensures var f := EncodeTile(st, mode, yQuants, cbQuants, crQuants, planes, caps);
      |f.y| + |f.cb| + |f.cr| == left + Growth(left, caps, f) - (caps.cr - |f.cr|) &&
      |f.y| + |f.cb| + |f.cr| <= left + Growth(left, caps, f)
    ensures var f := EncodeTile(st, mode, yQuants, cbQuants, crQuants, planes, caps);
      Growth(left, caps, f) >= 0 &&
      (Growth(left, caps, f) == 0 <==> left >= MinSpare && caps.y - |f.y| >= MinSpare && caps.cb - |f.cb| >= MinSpare)
  {
    var f := EncodeTile(st, mode, yQuants, cbQuants, crQuants, planes, caps);
    assert |f.cr| <= caps.cr;
    assert caps.y - left >= 0 && caps.cb - (caps.y - |f.y|) >= 0 && caps.cr - (caps.cb - |f.cb|) >= 0;
  }

  /**
   * When `stream_check_size` grows the stream to just `MinSpare` spare bytes,
   * one tile appends at most what the stream had left plus three times
   * `MinSpare`.
   */
  lemma {:induction false} LeastGrowthBound(st: Stages, mode: EntropyMode, yQuants: seq<Uint32>, cbQuants: seq<Uint32>,
                                             crQuants: seq<Uint32>, planes: Planes, left: int, caps: Capacities)
    requires st.Valid() && planes.Full() && left >= 0
    requires var f := EncodeTile(st, mode, yQuants, cbQuants, crQuants, planes, caps);
      caps.y == Reserve(left) && caps.cb == Reserve(caps.y - |f.y|) && caps.cr == Reserve(caps.cb - |f.cb|)
    ensures var f := EncodeTile(st, mode, yQuants, cbQuants, crQuants, planes, caps);
      |f.y| + |f.cb| + |f.cr| <= left + 3 * MinSpare
  {
    var f := EncodeTile(st, mode, yQuants, cbQuants, crQuants, planes, caps);
    assert caps.y <= left + MinSpare;
    assert caps.cb <= caps.y - |f.y| + MinSpare;
    assert caps.cr <= caps.cb - |f.cb| + MinSpare;
  }


  /** The encoding context: its mode, pixel format and stages, and the three planar scratch buffers. */
  class RfxContext {
    const mode: EntropyMode
    const pixelFormat: PixelFormat
    const stages: Stages
    const yRBuffer: array<Sint16>
    const cbGBuffer: array<Sint16>
    const crBBuffer: array<Sint16>

    ghost predicate Valid()
      reads this
    {
      stages.Valid() &&
      yRBuffer.Length == TileSize && cbGBuffer.Length == TileSize && crBBuffer.Length == TileSize &&
      yRBuffer != cbGBuffer && cbGBuffer != crBBuffer && yRBuffer != crBBuffer
    }

    constructor (mode: EntropyMode, pixelFormat: PixelFormat, stages: Stages)
      requires stages.Valid()
      ensures Valid() && fresh(yRBuffer) && fresh(cbGBuffer) && fresh(crBBuffer)
      ensures this.mode == mode && this.pixelFormat == pixelFormat && this.stages == stages
    {
      this.mode := mode;
      this.pixelFormat := pixelFormat;
      this.stages := stages;
      yRBuffer := new Sint16[TileSize];
      cbGBuffer := new Sint16[TileSize];
      crBBuffer := new Sint16[TileSize];
    }

    /**
     * `rfx_encode_component`: DWT, quantization with `quants`, differential
     * coding of `data[4032..4096]`, all in place, then RLGR of the 4096
     * coefficients into `buffer[tail..tail + bufferSize]`.  `size` is the
     * number of bytes RLGR wrote; no other byte of `buffer` changes.
     */
    method EncodeComponent(quants: seq<Uint32>, data: array<Sint16>, buffer: array<Byte>, tail: int, bufferSize: int)
      returns (size: int)
      requires Valid() && data.Length == TileSize
      requires 0 <= tail && 0 <= bufferSize && tail + bufferSize <= buffer.Length
      requires data as object != buffer
      modifies data, buffer
      ensures data[..] == Coefficients(stages, quants, old(data[..]))
      ensures var f := Fragment(stages, mode, quants, old(data[..]), bufferSize);
        size == |f| && 0 <= size <= bufferSize && buffer[tail..tail + size] == f
      ensures buffer[..tail] == old(buffer[..tail]) && buffer[tail + size..] == old(buffer[tail + size..])
    {
      ghost var plane := data[..];
      ghost var bufferBefore := buffer[..];
      var s := stages.dwt(data[..]);
      assert |s| == TileSize;
      Replace(data, s);
      s := stages.quantize(data[..], quants);
      assert |s| == TileSize && s == stages.quantize(stages.dwt(plane), quants);
      Replace(data, s);
      var d := stages.differential(data[DiffOffset..]);
      assert |d| == DiffLength;
      Overwrite(data, d, DiffOffset);
      assert data[..] == s[..DiffOffset] + d;
      assert buffer[..] == bufferBefore;
      var bytes := stages.rlgr(mode, data[..], bufferSize);
      ghost var coefficients := data[..];
      WriteBytes(buffer, tail, bytes);
      assert data[..] == coefficients;
      size := |bytes|;
    }

    /**
     * One of the three plane steps of `rfx_encode_rgb`: `stream_check_size`,
     * `rfx_encode_component` into the stream's tail with what it has left,
     * then `stream_seek` past the fragment.  `cap` is what the encoder was
     * handed.
     */
    method AppendPlane(quants: seq<Uint32>, data: array<Sint16>, out: Stream, ghost start: int)
      returns (size: int, ghost cap: nat)
      requires Valid() && out.Valid() && data.Length == TileSize && data as object != out.data
      requires 0 <= start <= out.pos
      modifies data, out, out.data
      ensures out.Valid() && (out.data == old(out.data) || fresh(out.data))
      ensures Grants(old(out.Left()), cap)
      ensures data[..] == Coefficients(stages, quants, old(data[..]))
      ensures var f := Fragment(stages, mode, quants, old(data[..]), cap);
        size == |f| && out.pos == old(out.pos) + size && out.data[old(out.pos)..out.pos] == f
      ensures out.Left() == cap - size
      ensures out.data[..start] == old(out.data[..start])
      ensures out.data[start..out.pos] == old(out.data[start..out.pos]) + out.data[old(out.pos)..out.pos]
    {
      ghost var kept := out.data[..out.pos];
      out.CheckSize(MinSpare);
      assert out.data[..old(out.pos)] == kept;
      cap := out.Left();
      size := EncodeComponent(quants, data, out.data, out.pos, out.Left());
      out.Seek(size);
      assert out.data[..old(out.pos)] == kept;
      SliceSplit(out.data[..], start, old(out.pos), out.pos);
    }

    /**
     * The second half of `rfx_encode_rgb`: the Y, Cb and Cr planes held in
     * the three buffers are encoded in turn and appended to the stream, each
     * into what the stream has left after the fragments before it, once
     * `stream_check_size` has run.  `caps` are the capacities handed out.
     */
    method AppendTile(yQuants: seq<Uint32>, cbQuants: seq<Uint32>, crQuants: seq<Uint32>, out: Stream)
      returns (ySize: int, cbSize: int, crSize: int, ghost caps: Capacities)
      requires Valid() && out.Valid()
      requires out.data !in {yRBuffer as object, cbGBuffer, crBBuffer}
      modifies yRBuffer, cbGBuffer, crBBuffer, out, out.data
      ensures out.Valid()
      ensures var planes := old(Planes(yRBuffer[..], cbGBuffer[..], crBBuffer[..]));
        var f := EncodeTile(stages, mode, yQuants, cbQuants, crQuants, planes, caps);
        TileGrants(old(out.Left()), caps, f) &&
        ySize == |f.y| && cbSize == |f.cb| && crSize == |f.cr| &&
        out.pos == old(out.pos) + ySize + cbSize + crSize &&
        out.data[old(out.pos)..out.pos] == f.y + f.cb + f.cr &&
        yRBuffer[..] == Coefficients(stages, yQuants, planes.yr) &&
        cbGBuffer[..] == Coefficients(stages, cbQuants, planes.cbg) &&
        crBBuffer[..] == Coefficients(stages, crQuants, planes.crb)
      ensures out.data[..old(out.pos)] == old(out.data[..out.pos])
    {
      ghost var planes := Planes(yRBuffer[..], cbGBuffer[..], crBBuffer[..]);
      ghost var left := out.Left();
      ghost var start := out.pos;
      ghost var capY: nat, capCb: nat, capCr: nat;

      ySize, capY := AppendPlane(yQuants, yRBuffer, out, start);
      ghost var fy := Fragment(stages, mode, yQuants, planes.yr, capY);
      assert out.data[start..out.pos] == fy;
      assert out.Left() == capY - |fy|;
      assert cbGBuffer[..] == planes.cbg && crBBuffer[..] == planes.crb;

      cbSize, capCb := AppendPlane(cbQuants, cbGBuffer, out, start);
      ghost var fcb := Fragment(stages, mode, cbQuants, planes.cbg, capCb);
      assert out.data[start..out.pos] == fy + fcb;
      assert out.Left() == capCb - |fcb|;
      assert crBBuffer[..] == planes.crb;

      crSize, capCr := AppendPlane(crQuants, crBBuffer, out, start);
      ghost var fcr := Fragment(stages, mode, crQuants, planes.crb, capCr);
      assert out.data[start..out.pos] == fy + fcb + fcr;
      caps := Capacities(capY, capCb, capCr);
    }

    /**
     * `rfx_encode_rgb`: converts the region `rgb_data` (here `src` from index
     * `base`) in the context's pixel format into the three planes, transforms
     * them to Y, Cb, Cr, then for Y, Cb and Cr in turn makes the stream hold
     * `MinSpare` spare bytes, encodes the plane at the write position into
     * what the stream has left (`caps`) and moves the write position past it.  The
     * bytes before the old write position are kept.
     */
    method EncodeRgb(src: seq<Byte>, base: int, width: int, height: int, rowstride: int,
                     yQuants: seq<Uint32>, cbQuants: seq<Uint32>, crQuants: seq<Uint32>, out: Stream)
      returns (ySize: int, cbSize: int, crSize: int, ghost caps: Capacities)
      requires Valid() && out.Valid()
      requires out.data !in {yRBuffer as object, cbGBuffer, crBBuffer}
      requires Region(src, base, width, height, rowstride, pixelFormat).Valid()
      modifies yRBuffer, cbGBuffer, crBBuffer, out, out.data
      ensures out.Valid()
      ensures var planes := YCbCrTile(ConvertTile(Region(src, base, width, height, rowstride, pixelFormat)));
        var f := EncodeTile(stages, mode, yQuants, cbQuants, crQuants, planes, caps);
        TileGrants(old(out.Left()), caps, f) &&
        ySize == |f.y| && cbSize == |f.cb| && crSize == |f.cr| &&
        out.pos == old(out.pos) + ySize + cbSize + crSize &&
        out.data[old(out.pos)..out.pos] == f.y + f.cb + f.cr &&
        yRBuffer[..] == Coefficients(stages, yQuants, planes.yr) &&
        cbGBuffer[..] == Coefficients(stages, cbQuants, planes.cbg) &&
        crBBuffer[..] == Coefficients(stages, crQuants, planes.crb)
      ensures out.data[..old(out.pos)] == old(out.data[..out.pos])
    {
      EncodeFormatRgb(Region(src, base, width, height, rowstride, pixelFormat), yRBuffer, cbGBuffer, crBBuffer);
      RgbToYCbCr(yRBuffer, cbGBuffer, crBBuffer);
      ySize, cbSize, crSize, caps := AppendTile(yQuants, cbQuants, crQuants, out);
    }
  }

  /** Writes `s` over the whole of `a`. */
  method Replace(a: array<Sint16>, s: seq<Sint16>)
    requires |s| == a.Length
    modifies a
    ensures a[..] == s
  {
    forall i | 0 <= i < |s| {
      a[i] := s[i];
    }
  }

  /** Writes `s` over `a[from..from + |s|]`, leaving the rest of `a` as it was. */
  method Overwrite(a: array<Sint16>, s: seq<Sint16>, from: int)
    requires 0 <= from && from + |s| <= a.Length
    modifies a
    ensures a[..] == old(a[..from]) + s + old(a[from + |s|..])
  {
    ghost var before := a[..];
    forall i | 0 <= i < |s| {
      a[from + i] := s[i];
    }
    assert a[..] == before[..from] + s + before[from + |s|..];
  }

  /** Copies `bytes` into `buffer` at `tail`, leaving the rest of `buffer` as it was. */
  method WriteBytes(buffer: array<Byte>, tail: int, bytes: seq<Byte>)
    requires 0 <= tail && tail + |bytes| <= buffer.Length
    modifies buffer
    ensures buffer[tail..tail + |bytes|] == bytes
    ensures buffer[..tail] == old(buffer[..tail]) && buffer[tail + |bytes|..] == old(buffer[tail + |bytes|..])
  {
    forall i | 0 <= i < |bytes| {
      buffer[tail + i] := bytes[i];
    }
  }

  lemma SliceSplit(a: seq<Byte>, i: int, j: int, k: int)
    requires 0 <= i <= j <= k <= |a|
    ensures a[i..k] == a[i..j] + a[j..k]
  {
  }
}
