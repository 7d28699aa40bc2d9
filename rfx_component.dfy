/**
 * What the component encoder hands to the stages it calls.  The forward
 * wavelet transform, the quantizer, the differential encoder and the RLGR
 * entropy coder live outside the tile encoder; they appear here as
 * functions of what they read, bound only by the shapes they keep.
 */
module RfxComponent {
  import opened RfxTypes

  /** The RLGR variant the context was created with (`context->mode`). */
  datatype EntropyMode = RLGR1 | RLGR3

  /** The differential stage rewrites the last 64 coefficients, the lowest-frequency subband. */
  const DiffOffset: int := 4032
  const DiffLength: int := 64

  /**
   * The stages, as the context reaches them: `dwt_2d_encode`,
   * `quantization_encode`, `rfx_differential_encode` on one 64-coefficient
   * slice, and `rfx_rlgr_encode`, which is given the mode, the 4096
   * coefficients and the destination capacity and yields the bytes it writes.
   */
  datatype Stages = Stages(
    dwt: seq<Sint16> -> seq<Sint16>,
    quantize: (seq<Sint16>, seq<Uint32>) -> seq<Sint16>,
    differential: seq<Sint16> -> seq<Sint16>,
    rlgr: (EntropyMode, seq<Sint16>, nat) -> seq<Byte>)
  {
    /** The stages keep the shape of what they rewrite, and RLGR writes no more than the capacity it is given. */
    ghost predicate Valid()
    {
      (forall s: seq<Sint16> :: |s| == TileSize ==> |dwt(s)| == TileSize) &&
      (forall s: seq<Sint16>, q: seq<Uint32> :: |s| == TileSize ==> |quantize(s, q)| == TileSize) &&
      (forall s: seq<Sint16> :: |s| == DiffLength ==> |differential(s)| == DiffLength) &&
      (forall m: EntropyMode, s: seq<Sint16>, n: nat :: |rlgr(m, s, n)| <= n)
    }
  }

  /**
   * The coefficients a plane leaves behind: transformed, then quantized with
   * `quants`; the first 4032 are left as the quantizer wrote them and the
   * last 64 are replaced by their differential coding.
   */
  function Coefficients(st: Stages, quants: seq<Uint32>, plane: seq<Sint16>): (c: seq<Sint16>)
    requires st.Valid() && |plane| == TileSize
    ensures |c| == TileSize
    ensures c[..DiffOffset] == st.quantize(st.dwt(plane), quants)[..DiffOffset]
    ensures c[DiffOffset..] == st.differential(st.quantize(st.dwt(plane), quants)[DiffOffset..])
  {
    var q := st.quantize(st.dwt(plane), quants);
    q[..DiffOffset] + st.differential(q[DiffOffset..])
  }

  /** The bytes RLGR writes for a plane into a destination of `capacity` bytes; they fit. */
  function Fragment(st: Stages, mode: EntropyMode, quants: seq<Uint32>, plane: seq<Sint16>, capacity: nat): (f: seq<Byte>)
    requires st.Valid() && |plane| == TileSize
    ensures |f| <= capacity
  {
    st.rlgr(mode, Coefficients(st, quants, plane), capacity)
  }
}
