/**
 * Pixel layout of one 8x8 tile and its four orientations.
 *
 * Both the `Tile` class (tile.h, tile.cpp) and the tile helpers of main.cpp
 * store a tile as 64 bytes in row-major order and flip it with the same
 * nested index loops; the orientations are defined once here, as functions
 * on the pixel sequence, and the loops that the sources run are the methods
 * `FlipXInto`, `FlipYInto` and `SameData`.
 */
module TileGeometry {

  const TILE_WIDTH: nat := 8
  const TILE_HEIGHT: nat := 8
  const NUM_PIXELS_IN_TILE: nat := 64

  /** One palette index of the indexed image, an unsigned byte. */
  type Pixel = bv8

  /** A `uint16_t`, the width of a tile id. */
  type Uint16 = x: int | 0 <= x < 0x1_0000

  /** A pointer that may be null, modelled as an optional value. */
  datatype Option<T> = None | Some(value: T)

  /** Position of pixel (x, y) in the row-major pixel block of a tile. */
  function PixelIndex(x: int, y: int): int
  {
    y * 8 + x
  }

  /** Every index of the block is the index of exactly one pixel (x, y). */
  lemma IndexDecomposes(k: int)
    requires 0 <= k < NUM_PIXELS_IN_TILE
    ensures 0 <= k % 8 < TILE_WIDTH && 0 <= k / 8 < TILE_HEIGHT
    ensures k == PixelIndex(k % 8, k / 8)
  {
  }

  /** Row `r` of a tile: its eight pixels, left to right. */
  function Row(s: seq<Pixel>, r: int): (row: seq<Pixel>)
    requires |s| == NUM_PIXELS_IN_TILE && 0 <= r < TILE_HEIGHT
    ensures |row| == TILE_WIDTH
  {
    s[8 * r .. 8 * r + 8]
  }

  ghost predicate RowsSized(rows: seq<seq<Pixel>>)
  {
    forall r | 0 <= r < |rows| :: |rows[r]| == TILE_WIDTH
  }

  /** Rows of eight pixels laid out one after the other. */
  function Flatten(rows: seq<seq<Pixel>>): (s: seq<Pixel>)
    requires RowsSized(rows)
    ensures |s| == TILE_WIDTH * |rows|
    decreases |rows|
  {
    if rows == [] then [] else Flatten(rows[..|rows| - 1]) + rows[|rows| - 1]
  }

  /** Pixel (x, y) of laid-out rows is pixel x of row y. */
  lemma {:induction false} FlattenPixels(rows: seq<seq<Pixel>>)
    requires RowsSized(rows)
    ensures forall x, y | 0 <= x < TILE_WIDTH && 0 <= y < |rows| :: Flatten(rows)[PixelIndex(x, y)] == rows[y][x]
    decreases |rows|
  {
    if rows != [] {
      var n := |rows| - 1;
      FlattenPixels(rows[..n]);
      forall x, y | 0 <= x < TILE_WIDTH && 0 <= y < |rows|
        ensures Flatten(rows)[PixelIndex(x, y)] == rows[y][x]
      {
        if y < n {
          assert rows[..n][y] == rows[y];
        }
      }
    }
  }

  /** A row read right to left. */
  function Reverse(row: seq<Pixel>): (r: seq<Pixel>)
    ensures |r| == |row|
    ensures forall i | 0 <= i < |row| :: r[i] == row[|row| - 1 - i]
  {
    seq(|row|, i requires 0 <= i < |row| => row[|row| - 1 - i])
  }

  /**
   * Mirror image left to right: each row reversed.  What this means pixel by
   * pixel is the lemma `FlipXPixels`.
   */
  function FlipX(s: seq<Pixel>): (r: seq<Pixel>)
    requires |s| == NUM_PIXELS_IN_TILE
    ensures |r| == NUM_PIXELS_IN_TILE
  {
    Flatten(seq(TILE_HEIGHT, y requires 0 <= y < TILE_HEIGHT => Reverse(Row(s, y))))
  }

  /** Mirror image top to bottom: the order of the rows reversed (pixel by pixel: `FlipYPixels`). */
  function FlipY(s: seq<Pixel>): (r: seq<Pixel>)
    requires |s| == NUM_PIXELS_IN_TILE
    ensures |r| == NUM_PIXELS_IN_TILE
  {
    Flatten(seq(TILE_HEIGHT, y requires 0 <= y < TILE_HEIGHT => Row(s, TILE_HEIGHT - 1 - y)))
  }

  /** Pixel (x, y) of the X flip is pixel (7 - x, y) of the original. */
  lemma FlipXPixels(s: seq<Pixel>)
    requires |s| == NUM_PIXELS_IN_TILE
    ensures forall x, y | 0 <= x < TILE_WIDTH && 0 <= y < TILE_HEIGHT ::
              FlipX(s)[PixelIndex(x, y)] == s[PixelIndex(TILE_WIDTH - 1 - x, y)]
  {
    var rows := seq(TILE_HEIGHT, y requires 0 <= y < TILE_HEIGHT => Reverse(Row(s, y)));
    FlattenPixels(rows);
  }

  /** Pixel (x, y) of the Y flip is pixel (x, 7 - y) of the original. */
  lemma FlipYPixels(s: seq<Pixel>)
    requires |s| == NUM_PIXELS_IN_TILE
    ensures forall x, y | 0 <= x < TILE_WIDTH && 0 <= y < TILE_HEIGHT ::
              FlipY(s)[PixelIndex(x, y)] == s[PixelIndex(x, TILE_HEIGHT - 1 - y)]
  {
    var rows := seq(TILE_HEIGHT, y requires 0 <= y < TILE_HEIGHT => Row(s, TILE_HEIGHT - 1 - y));
    FlattenPixels(rows);
  }

  /** The 180 degree turn: a flip in X followed by a flip in Y, the composition both sources use. */
  function FlipXY(s: seq<Pixel>): (r: seq<Pixel>)
    requires |s| == NUM_PIXELS_IN_TILE
    ensures |r| == NUM_PIXELS_IN_TILE
  {
    FlipY(FlipX(s))
  }

  /** The orientation named by a pair of flip flags, as the tilemap flags read it. */
  function Orient(flippedX: bool, flippedY: bool, s: seq<Pixel>): (r: seq<Pixel>)
    requires |s| == NUM_PIXELS_IN_TILE
    ensures |r| == NUM_PIXELS_IN_TILE
  {
    if flippedX && flippedY then FlipXY(s)
    else if flippedX then FlipX(s)
    else if flippedY then FlipY(s)
    else s
  }

  lemma FlipXInvolution(s: seq<Pixel>)
    requires |s| == NUM_PIXELS_IN_TILE
    ensures FlipX(FlipX(s)) == s
  {
    FlipXPixels(s);
    FlipXPixels(FlipX(s));
    forall k | 0 <= k < NUM_PIXELS_IN_TILE
      ensures FlipX(FlipX(s))[k] == s[k]
    {
      IndexDecomposes(k);
      var x, y := k % 8, k / 8;
      assert FlipX(FlipX(s))[PixelIndex(x, y)] == FlipX(s)[PixelIndex(7 - x, y)]
                                             == s[PixelIndex(x, y)];
    }
  }

  lemma FlipYInvolution(s: seq<Pixel>)
    requires |s| == NUM_PIXELS_IN_TILE
    ensures FlipY(FlipY(s)) == s
  {
    FlipYPixels(s);
    FlipYPixels(FlipY(s));
    forall k | 0 <= k < NUM_PIXELS_IN_TILE
      ensures FlipY(FlipY(s))[k] == s[k]
    {
      IndexDecomposes(k);
      var x, y := k % 8, k / 8;
      assert FlipY(FlipY(s))[PixelIndex(x, y)] == FlipY(s)[PixelIndex(x, 7 - y)]
                                             == s[PixelIndex(x, y)];
    }
  }

  lemma FlipsCommute(s: seq<Pixel>)
    requires |s| == NUM_PIXELS_IN_TILE
    ensures FlipX(FlipY(s)) == FlipY(FlipX(s))
  {
    FlipXPixels(s);
    FlipYPixels(s);
    FlipXPixels(FlipY(s));
    FlipYPixels(FlipX(s));
    forall k | 0 <= k < NUM_PIXELS_IN_TILE
      ensures FlipX(FlipY(s))[k] == FlipY(FlipX(s))[k]
    {
      IndexDecomposes(k);
      var x, y := k % 8, k / 8;
      assert FlipX(FlipY(s))[PixelIndex(x, y)] == FlipY(s)[PixelIndex(7 - x, y)]
                                             == s[PixelIndex(7 - x, 7 - y)];
      assert FlipY(FlipX(s))[PixelIndex(x, y)] == FlipX(s)[PixelIndex(x, 7 - y)]
                                             == s[PixelIndex(7 - x, 7 - y)];
    }
  }

  /** Flipping in both directions turns the tile by 180 degrees: it reverses the 64 pixels. */
  lemma FlipXYReverses(s: seq<Pixel>)
    requires |s| == NUM_PIXELS_IN_TILE
    ensures forall k | 0 <= k < NUM_PIXELS_IN_TILE :: FlipXY(s)[k] == s[NUM_PIXELS_IN_TILE - 1 - k]
  {
    FlipXPixels(s);
    FlipYPixels(FlipX(s));
    forall k | 0 <= k < NUM_PIXELS_IN_TILE
      ensures FlipXY(s)[k] == s[NUM_PIXELS_IN_TILE - 1 - k]
    {
      IndexDecomposes(k);
      var x, y := k % 8, k / 8;
      assert FlipY(FlipX(s))[PixelIndex(x, y)] == FlipX(s)[PixelIndex(x, 7 - y)]
                                             == s[PixelIndex(7 - x, 7 - y)];
      assert PixelIndex(7 - x, 7 - y) == NUM_PIXELS_IN_TILE - 1 - k;
    }
  }

  lemma FlipXYInvolution(s: seq<Pixel>)
    requires |s| == NUM_PIXELS_IN_TILE
    ensures FlipXY(FlipXY(s)) == s
  {
    FlipXYReverses(s);
    FlipXYReverses(FlipXY(s));
  }

  /**
   * Undoing an orientation: when the pixels of a block, turned by a
   * combination of flips, equal some stored pixels, the block equals the
   * stored pixels turned by the same combination.
   */
  lemma OrientUndo(flippedX: bool, flippedY: bool, block: seq<Pixel>, stored: seq<Pixel>)
    requires |block| == NUM_PIXELS_IN_TILE && |stored| == NUM_PIXELS_IN_TILE
    requires Orient(flippedX, flippedY, block) == stored
    ensures block == Orient(flippedX, flippedY, stored)
  {
    if flippedX && flippedY {
      FlipXYInvolution(block);
    } else if flippedX {
      FlipXInvolution(block);
    } else if flippedY {
      FlipYInvolution(block);
    }
  }

  /**
   * The row loop of tile.cpp:39-43 and main.cpp:774-778: row by row, column
   * by column, pixel (x, y) of the destination is pixel (7 - x, y) of the source.
   */
  method FlipXInto(src: seq<Pixel>, dst: array<Pixel>)
    requires |src| == NUM_PIXELS_IN_TILE == dst.Length
    modifies dst
    ensures dst[..] == FlipX(src)
  {
    for y := 0 to TILE_HEIGHT
      invariant forall x', y' | 0 <= x' < TILE_WIDTH && 0 <= y' < y ::
                  dst[PixelIndex(x', y')] == src[PixelIndex(TILE_WIDTH - 1 - x', y')]
    {
      for x := 0 to TILE_WIDTH
        invariant forall x', y' | 0 <= x' < TILE_WIDTH && 0 <= y' < y ::
                    dst[PixelIndex(x', y')] == src[PixelIndex(TILE_WIDTH - 1 - x', y')]
        invariant forall x' | 0 <= x' < x ::
                    dst[PixelIndex(x', y)] == src[PixelIndex(TILE_WIDTH - 1 - x', y)]
      {
        dst[PixelIndex(x, y)] := src[PixelIndex((TILE_WIDTH - 1) - x, y)];
      }
    }
    FlipXPixels(src);
    forall k | 0 <= k < NUM_PIXELS_IN_TILE
      ensures dst[k] == FlipX(src)[k]
    {
      IndexDecomposes(k);
      var x, y := k % 8, k / 8;
      assert dst[PixelIndex(x, y)] == src[PixelIndex(TILE_WIDTH - 1 - x, y)] == FlipX(src)[PixelIndex(x, y)];
    }
  }

  /**
   * The column loop of tile.cpp:51-55 and main.cpp:786-790: column by column,
   * row by row, pixel (x, y) of the destination is pixel (x, 7 - y) of the source.
   */
  method FlipYInto(src: seq<Pixel>, dst: array<Pixel>)
    requires |src| == NUM_PIXELS_IN_TILE == dst.Length
    modifies dst
    ensures dst[..] == FlipY(src)
  {
    for x := 0 to TILE_WIDTH
      invariant forall x', y' | 0 <= x' < x && 0 <= y' < TILE_HEIGHT ::
                  dst[PixelIndex(x', y')] == src[PixelIndex(x', TILE_HEIGHT - 1 - y')]
    {
      for y := 0 to TILE_HEIGHT
        invariant forall x', y' | 0 <= x' < x && 0 <= y' < TILE_HEIGHT ::
                    dst[PixelIndex(x', y')] == src[PixelIndex(x', TILE_HEIGHT - 1 - y')]
        invariant forall y' | 0 <= y' < y ::
                    dst[PixelIndex(x, y')] == src[PixelIndex(x, TILE_HEIGHT - 1 - y')]
      {
        dst[PixelIndex(x, y)] := src[PixelIndex(x, TILE_HEIGHT - 1 - y)];
      }
    }
    FlipYPixels(src);
    forall k | 0 <= k < NUM_PIXELS_IN_TILE
      ensures dst[k] == FlipY(src)[k]
    {
      IndexDecomposes(k);
      var x, y := k % 8, k / 8;
      assert dst[PixelIndex(x, y)] == src[PixelIndex(x, TILE_HEIGHT - 1 - y)] == FlipY(src)[PixelIndex(x, y)];
    }
  }

  /**
   * The comparison loop of tile.cpp:70-74 and main.cpp:741-747: count equal
   * pixels from the front, stop at the first difference, and report equality
   * when all 64 were counted.
   */
  method SameData(a: seq<Pixel>, b: seq<Pixel>) returns (equal: bool)
    requires |a| == NUM_PIXELS_IN_TILE == |b|
    ensures equal <==> a == b
  {
    var count := 0;
    while count < NUM_PIXELS_IN_TILE
      invariant 0 <= count <= NUM_PIXELS_IN_TILE
      invariant a[..count] == b[..count]
    {
      if a[count] != b[count] {
        break;
      }
      count := count + 1;
    }
    equal := count == NUM_PIXELS_IN_TILE;
    assert equal ==> a == a[..count] && b == b[..count];
  }
}
