/**
 * The `Tile` class of tile.h and tile.cpp: 64 pixel bytes held inline, a
 * 16-bit id, the two flip flags, the duplicate flag and a non-owning pointer
 * to the tile this one duplicates.  Flipping never touches the receiver: it
 * allocates a new tile, copies the metadata and fills the new pixels.
 */
module TileClass {
  import opened TileGeometry

  class Tile {
    var id: Uint16
    /** The inline `unsigned char data[NUM_PIXELS_IN_TILE]`: one buffer per tile, never re-seated. */
    const data: array<Pixel>
    var flippedX: bool
    var flippedY: bool
    var isDuplicate: bool
    var originalTile: Tile?

    ghost predicate Valid()
      reads this
    {
      data.Length == NUM_PIXELS_IN_TILE
    }

    /** Sets every field from its argument and gives the tile its own pixel buffer. */
    constructor (id: Uint16, flippedX: bool, flippedY: bool, isDuplicate: bool, originalTile: Tile?)
      ensures Valid() && fresh(data)
      ensures this.id == id && this.flippedX == flippedX && this.flippedY == flippedY
      ensures this.isDuplicate == isDuplicate && this.originalTile == originalTile
    {
      this.id := id;
      this.data := new Pixel[NUM_PIXELS_IN_TILE];
      this.flippedX := flippedX;
      this.flippedY := flippedY;
      this.isDuplicate := isDuplicate;
      this.originalTile := originalTile;
    }

    /** A new tile holding the left-right mirror image, marked flipped in X, other metadata copied. */
    method FlipX() returns (flipped: Tile)
      requires Valid()
      ensures fresh(flipped) && fresh(flipped.data) && flipped.Valid()
      ensures flipped.data[..] == TileGeometry.FlipX(data[..])
      ensures flipped.id == id && flipped.flippedX && flipped.flippedY == flippedY
      ensures flipped.isDuplicate == isDuplicate && flipped.originalTile == originalTile
    {
      flipped := new Tile(id, true, flippedY, isDuplicate, originalTile);
      FlipXInto(data[..], flipped.data);
    }

    /** A new tile holding the top-bottom mirror image, marked flipped in Y, other metadata copied. */
    method FlipY() returns (flipped: Tile)
      requires Valid()
      ensures fresh(flipped) && fresh(flipped.data) && flipped.Valid()
      ensures flipped.data[..] == TileGeometry.FlipY(data[..])
      ensures flipped.id == id && flipped.flippedX == flippedX && flipped.flippedY
      ensures flipped.isDuplicate == isDuplicate && flipped.originalTile == originalTile
    {
      flipped := new Tile(id, flippedX, true, isDuplicate, originalTile);
      FlipYInto(data[..], flipped.data);
    }

    /**
     * A new tile turned by 180 degrees (the X flip of this tile, flipped in Y),
     * marked flipped both ways; the intermediate tile is discarded.
     */
    method FlipXY() returns (flipped: Tile)
      requires Valid()
      ensures fresh(flipped) && fresh(flipped.data) && flipped.Valid()
      ensures flipped.data[..] == TileGeometry.FlipXY(data[..])
      ensures forall k | 0 <= k < NUM_PIXELS_IN_TILE :: flipped.data[k] == data[NUM_PIXELS_IN_TILE - 1 - k]
      ensures flipped.id == id && flipped.flippedX && flipped.flippedY
      ensures flipped.isDuplicate == isDuplicate && flipped.originalTile == originalTile
    {
      var flippedXTile := FlipX();
      flipped := flippedXTile.FlipY();
      FlipXYReverses(data[..]);
    }

    /** True exactly when all 64 pixels of the two tiles are equal. */
    method IsDataEqual(anotherTile: Tile) returns (equal: bool)
      requires Valid() && anotherTile.Valid()
      ensures equal <==> data[..] == anotherTile.data[..]
    {
      equal := SameData(data[..], anotherTile.data[..]);
    }
  }

  /** What callers may rely on without looking inside the flips: the pixels and the metadata other than the X flag come back after two X flips. */
  method FlipXTwiceRestores(t: Tile) returns (back: Tile)
    requires t.Valid()
    ensures back.data[..] == t.data[..] && back.flippedX
    ensures back.id == t.id && back.flippedY == t.flippedY
    ensures back.isDuplicate == t.isDuplicate && back.originalTile == t.originalTile
  {
    var once := t.FlipX();
    back := once.FlipX();
    FlipXInvolution(t.data[..]);
  }
}
