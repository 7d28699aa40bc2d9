/**
 * Shared vocabulary of the RemoteFX tile encoder: the C integer types it
 * stores samples and quantization factors in, and the tile geometry.
 */
module RfxTypes {
  /** A C `sint16`: what the planar sample buffers hold. */
  type Sint16 = x: int | -0x8000 <= x < 0x8000

  /** A C `uint32`: one quantization factor. */
  type Uint32 = x: int | 0 <= x < 0x1_0000_0000

  /** A C `uint8`, kept as a bit-vector so that the source's masks and shifts read as written. */
  type Byte = bv8

  /** A tile is `TileSide` by `TileSide` pixels; each plane holds `TileSize` samples, row by row. */
  const TileSide: int := 64
  const TileSize: int := 4096

  function Min(a: int, b: int): int { if a < b then a else b }
  function Max(a: int, b: int): int { if a < b then b else a }

  /** Tile index of column `x` of row `y`. */
  function TileIndex(y: int, x: int): int { y * TileSide + x }

  /** Row and column can be read back from a tile index. */
  lemma TileIndexSplit(y: int, x: int)
    requires 0 <= x < TileSide
    ensures TileIndex(y, x) / TileSide == y && TileIndex(y, x) % TileSide == x
  {
  }

  /** A tile index inside row `y` has row `y` and column its offset from the row's start. */
  lemma RowOfIndex(y: int, i: int)
    requires TileIndex(y, 0) <= i < TileIndex(y, 0) + TileSide
    ensures i / TileSide == y && i % TileSide == i - TileIndex(y, 0)
  {
  }

  /** The three planar buffers, named after the context's `y_r_buffer`, `cb_g_buffer`, `cr_b_buffer`. */
  datatype Planes = Planes(yr: seq<Sint16>, cbg: seq<Sint16>, crb: seq<Sint16>)
  {
    predicate Full() { |yr| == TileSize && |cbg| == TileSize && |crb| == TileSize }
  }
}
