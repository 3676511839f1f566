/**
 * The tile deduplication and tilemap construction of main.cpp.
 *
 * main.cpp keeps its own `struct Tile` (id, malloc'd pixel buffer, flip
 * flags, duplicate flag, pointer to the stored original).  Once a tile is
 * pushed to the store or the tilemap it is never changed again, so a tile is
 * modelled as a value and the `original_tile` pointer as the position of the
 * original in the store.  The store (`std::vector<Tile *> tiles`, passed by
 * pointer to `add_new_tile`) is the class `TileStore`.
 */
module TileMap {
  import opened TileGeometry

  /** The `struct Tile` of main.cpp:55-62, with `original_tile` as a store position. */
  datatype MapTile = MapTile(
    id: Uint16,
    data: seq<Pixel>,
    flippedX: bool,
    flippedY: bool,
    isDuplicate: bool,
    original: Option<nat>)

  datatype TileSize = Tile8x8 | Tile8x16

  /** The options of main.cpp's `Config` that drive the tiling loops. */
  datatype Config = Config(mirror: bool, removeDups: bool, tileSize: TileSize)

  /**
   * A decoded indexed image: one byte per pixel.  read_png_file lays the rows
   * out back to back (`stride` equal to the width) and keeps a pointer to the
   * start of each; the model holds the image as that sequence of rows.
   */
  datatype Image = Image(width: int, height: int, rows: seq<seq<Pixel>>)

  /** The store and the tilemap as `process_file` builds them. */
  datatype Built = Built(tiles: seq<MapTile>, tilemap: seq<MapTile>)

  /** The shape read_png_file guarantees: `height` rows of `width` pixels each. */
  predicate WellFormed(image: Image)
  {
    0 <= image.width && 0 <= image.height && |image.rows| == image.height &&
    forall r | 0 <= r < |image.rows| :: |image.rows[r]| == image.width
  }

  type DecodedImage = image: Image | WellFormed(image) witness Image(0, 0, [])

  ghost predicate BlockInside(image: Image, x: int, y: int)
  {
    0 <= x && x + TILE_WIDTH <= image.width && 0 <= y && y + TILE_HEIGHT <= image.height
  }

  /** The eight rows of the block whose top left pixel is (x, y), each cut out of its image row. */
  function BlockRows(image: DecodedImage, x: int, y: int): (rows: seq<seq<Pixel>>)
    requires BlockInside(image, x, y)
    ensures |rows| == TILE_HEIGHT && RowsSized(rows)
    ensures forall c, r | 0 <= c < TILE_WIDTH && 0 <= r < TILE_HEIGHT :: rows[r][c] == image.rows[y + r][x + c]
  {
    seq(TILE_HEIGHT, r requires 0 <= r < TILE_HEIGHT =>
      image.rows[y + r][x .. x + TILE_WIDTH])
  }

  /** The 8x8 block whose top left pixel is (x, y), row by row (pixel by pixel: `BlockPixels`). */
  function Block(image: DecodedImage, x: int, y: int): (b: seq<Pixel>)
    requires BlockInside(image, x, y)
    ensures |b| == NUM_PIXELS_IN_TILE
  {
    Flatten(BlockRows(image, x, y))
  }

  /** Pixel (c, r) of the block at (x, y) is pixel (x + c, y + r) of the image. */
  lemma BlockPixels(image: DecodedImage, x: int, y: int)
    requires BlockInside(image, x, y)
    ensures forall c, r | 0 <= c < TILE_WIDTH && 0 <= r < TILE_HEIGHT ::
              Block(image, x, y)[PixelIndex(c, r)] == image.rows[y + r][x + c]
  {
    FlattenPixels(BlockRows(image, x, y));
  }

  ghost predicate AllSized(tiles: seq<MapTile>)
  {
    forall i | 0 <= i < |tiles| :: |tiles[i].data| == NUM_PIXELS_IN_TILE
  }

  // ---------------------------------------------------------------------
  // find_duplicate

  /** The first stored tile, from position `i` on, whose pixels are `d`. */
  function FirstMatchFrom(tiles: seq<MapTile>, d: seq<Pixel>, i: nat): (r: Option<nat>)
    requires i <= |tiles|
    ensures r.Some? ==> i <= r.value < |tiles| && tiles[r.value].data == d
    ensures r.Some? ==> forall j | i <= j < r.value :: tiles[j].data != d
    ensures r.None? <==> forall j | i <= j < |tiles| :: tiles[j].data != d
    decreases |tiles| - i
  {
    if i == |tiles| then None
    else if tiles[i].data == d then Some(i)
    else FirstMatchFrom(tiles, d, i + 1)
  }

  /** The earliest stored tile whose pixels are `d`, if any. */
  function FirstMatch(tiles: seq<MapTile>, d: seq<Pixel>): Option<nat>
  {
    FirstMatchFrom(tiles, d, 0)
  }

  /** A first-match search returns the unique lowest matching position. */
  lemma FirstMatchIsLowest(tiles: seq<MapTile>, d: seq<Pixel>, k: nat)
    requires k < |tiles| && tiles[k].data == d
    requires forall j | 0 <= j < k :: tiles[j].data != d
    ensures FirstMatch(tiles, d) == Some(k)
  {
  }

  /**
   * find_duplicate: scan the store from the front and return the first tile
   * whose 64 pixels all equal the query, or nothing.
   */
  method FindDuplicate(tile: MapTile, tiles: seq<MapTile>) returns (found: Option<nat>)
    requires |tile.data| == NUM_PIXELS_IN_TILE && AllSized(tiles)
    ensures found == FirstMatch(tiles, tile.data)
  {
    var size := |tiles|;
    for i := 0 to size
      invariant forall j | 0 <= j < i :: tiles[j].data != tile.data
    {
      var t := tiles[i];
      var same := SameData(t.data, tile.data);
      if same {
        FirstMatchIsLowest(tiles, tile.data, i);
        return Some(i);
      }
    }
    return None;
  }

  // ---------------------------------------------------------------------
  // new_tile and the flips of main.cpp

  /**
   * new_tile: a tile with the given id (converted to 16 bits) and metadata.
   * The pixel buffer is uninitialised in main.cpp; here it starts zeroed and
   * every caller fills it before reading it.
   */
  function NewTile(id: int, flippedX: bool, flippedY: bool, isDuplicate: bool, original: Option<nat>): (t: MapTile)
    ensures |t.data| == NUM_PIXELS_IN_TILE
    ensures t.id == id % 0x1_0000 && 0 <= t.id < 0x1_0000
    ensures t.flippedX == flippedX && t.flippedY == flippedY
    ensures t.isDuplicate == isDuplicate && t.original == original
  {
    MapTile(id % 0x1_0000, seq(NUM_PIXELS_IN_TILE, _ => 0), flippedX, flippedY, isDuplicate, original)
  }

  /** tile_flip_x: a new tile with the mirrored pixels, flipped in X, other metadata copied. */
  method TileFlipX(tile: MapTile) returns (flipped: MapTile)
    requires |tile.data| == NUM_PIXELS_IN_TILE
    ensures flipped == tile.(data := FlipX(tile.data), flippedX := true)
  {
    flipped := NewTile(tile.id, true, tile.flippedY, tile.isDuplicate, tile.original);
    var buffer := new Pixel[NUM_PIXELS_IN_TILE];
    FlipXInto(tile.data, buffer);
    flipped := flipped.(data := buffer[..]);
  }

  /** tile_flip_y: a new tile with the rows reversed, flipped in Y, other metadata copied. */
  method TileFlipY(tile: MapTile) returns (flipped: MapTile)
    requires |tile.data| == NUM_PIXELS_IN_TILE
    ensures flipped == tile.(data := FlipY(tile.data), flippedY := true)
  {
    flipped := NewTile(tile.id, tile.flippedX, true, tile.isDuplicate, tile.original);
    var buffer := new Pixel[NUM_PIXELS_IN_TILE];
    FlipYInto(tile.data, buffer);
    flipped := flipped.(data := buffer[..]);
  }

  /** tile_flip_xy: the Y flip of the X flip, flipped both ways. */
  method TileFlipXY(tile: MapTile) returns (flipped: MapTile)
    requires |tile.data| == NUM_PIXELS_IN_TILE
    ensures flipped == tile.(data := FlipXY(tile.data), flippedX := true, flippedY := true)
  {
    var flippedX := TileFlipX(tile);
    flipped := TileFlipY(flippedX);
  }

  // ---------------------------------------------------------------------
  // createTile

  /**
   * What createTile decides for a block: the exact orientation first, then,
   * only when mirroring is on and nothing matched, the X flip, the Y flip and
   * the 180 degree turn, each looked up from the front of the store; the
   * block's own pixels are kept unflipped.  What the decision guarantees is
   * the lemma `CreateTileDecision`.
   */
  function CreateTileSpec(block: seq<Pixel>, tiles: seq<MapTile>, mirrored: bool): (t: MapTile)
    requires |block| == NUM_PIXELS_IN_TILE
    ensures t.id == 0 && t.data == block
  {
    var exact := FirstMatch(tiles, block);
    if exact.Some? then MapTile(0, block, false, false, true, exact)
    else if !mirrored then MapTile(0, block, false, false, false, None)
    else
      var mx := FirstMatch(tiles, FlipX(block));
      if mx.Some? then MapTile(0, block, true, false, true, mx)
      else
        var my := FirstMatch(tiles, FlipY(block));
        if my.Some? then MapTile(0, block, false, true, true, my)
        else
          var mxy := FirstMatch(tiles, FlipXY(block));
          MapTile(0, block, mxy.Some?, mxy.Some?, mxy.Some?, mxy)
  }

  /**
   * createTile marks a block as a duplicate exactly when it names a stored
   * original, and then the original holds the block turned by the tile's flip
   * flags and is the first such tile in the store; the flags are set only
   * with mirroring on, and only after every earlier orientation in the order
   * exact, X, Y, both was found nowhere in the store.
   */
  lemma CreateTileDecision(block: seq<Pixel>, tiles: seq<MapTile>, mirrored: bool)
    requires |block| == NUM_PIXELS_IN_TILE
    ensures var t := CreateTileSpec(block, tiles, mirrored);
            && (t.isDuplicate <==> t.original.Some?)
            && (t.isDuplicate ==>
                  && t.original.value < |tiles|
                  && tiles[t.original.value].data == Orient(t.flippedX, t.flippedY, block)
                  && forall j | 0 <= j < t.original.value :: tiles[j].data != Orient(t.flippedX, t.flippedY, block))
            && (!t.isDuplicate ==> !t.flippedX && !t.flippedY)
            && (!mirrored ==> !t.flippedX && !t.flippedY)
            && (t.flippedX || t.flippedY || !t.isDuplicate ==>
                  forall j | 0 <= j < |tiles| :: tiles[j].data != block)
            && (t.flippedY || (mirrored && !t.isDuplicate) ==>
                  forall j | 0 <= j < |tiles| :: tiles[j].data != FlipX(block))
            && ((t.flippedX && t.flippedY) || (mirrored && !t.isDuplicate) ==>
                  forall j | 0 <= j < |tiles| :: tiles[j].data != FlipY(block))
            && (mirrored && !t.isDuplicate ==>
                  forall j | 0 <= j < |tiles| :: tiles[j].data != FlipXY(block))
  {
  }

  /**
   * A duplicate found by createTile is the stored original turned by the
   * tile's own flip flags, because every orientation undoes itself.
   */
  lemma CreateTileResolves(block: seq<Pixel>, tiles: seq<MapTile>, mirrored: bool)
    requires |block| == NUM_PIXELS_IN_TILE && AllSized(tiles)
    ensures var t := CreateTileSpec(block, tiles, mirrored);
            t.isDuplicate ==> block == Orient(t.flippedX, t.flippedY, tiles[t.original.value].data)
  {
    var t := CreateTileSpec(block, tiles, mirrored);
    CreateTileDecision(block, tiles, mirrored);
    if t.isDuplicate {
      var stored := tiles[t.original.value].data;
      assert tiles[t.original.value] in tiles;
      OrientUndo(t.flippedX, t.flippedY, block, stored);
    }
  }

  /**
   * A block that createTile declares new is none of the stored tiles, and with
   * mirroring on it is none of their X, Y or 180 degree flips either.
   */
  lemma CreateTileNew(block: seq<Pixel>, tiles: seq<MapTile>, mirrored: bool)
    requires |block| == NUM_PIXELS_IN_TILE && AllSized(tiles)
    requires !CreateTileSpec(block, tiles, mirrored).isDuplicate
    ensures forall i | 0 <= i < |tiles| ::
              block != tiles[i].data &&
              (mirrored ==> block != FlipX(tiles[i].data) && block != FlipY(tiles[i].data) &&
                            block != FlipXY(tiles[i].data))
  {
    CreateTileDecision(block, tiles, mirrored);
    forall i | 0 <= i < |tiles|
      ensures block != tiles[i].data
      ensures mirrored ==> block != FlipX(tiles[i].data) && block != FlipY(tiles[i].data) &&
                           block != FlipXY(tiles[i].data)
    {
      var stored := tiles[i].data;
      assert tiles[i] in tiles;
      if mirrored {
        FlipXInvolution(stored);
        FlipYInvolution(stored);
        FlipXYInvolution(stored);
      }
    }
  }

  /**
   * createTile: copy the 8x8 block at (x, y) out of the image, look it up in
   * the store as it is and, with mirroring on and no exact match, as its X, Y
   * and 180 degree flips, stopping at the first orientation that matches.
   */
  method CreateTile(image: DecodedImage, x: int, y: int, tiles: seq<MapTile>, mirrored: bool) returns (tile: MapTile)
    requires BlockInside(image, x, y) && AllSized(tiles)
    ensures tile == CreateTileSpec(Block(image, x, y), tiles, mirrored)
  {
    tile := NewTile(0, false, false, false, None);
    var buffer := new Pixel[NUM_PIXELS_IN_TILE];
    for r := 0 to TILE_HEIGHT
      invariant forall c, r' | 0 <= c < TILE_WIDTH && 0 <= r' < r ::
                  buffer[PixelIndex(c, r')] == image.rows[y + r'][x + c]
    {
      for c := 0 to TILE_WIDTH
        invariant forall c', r' | 0 <= c' < TILE_WIDTH && 0 <= r' < r ::
                    buffer[PixelIndex(c', r')] == image.rows[y + r'][x + c']
        invariant forall c' | 0 <= c' < c ::
                    buffer[PixelIndex(c', r)] == image.rows[y + r][x + c']
      {
          buffer[PixelIndex(c, r)] := image.rows[y + r][x + c];
      }
    }
    ghost var block := Block(image, x, y);
    BlockPixels(image, x, y);
    forall k | 0 <= k < NUM_PIXELS_IN_TILE
      ensures buffer[k] == block[k]
    {
      IndexDecomposes(k);
    }
    tile := tile.(data := buffer[..]);
    assert tile.data == block;

    var found := FindDuplicate(tile, tiles);
    tile := tile.(original := found);
    if found.Some? {
      tile := tile.(isDuplicate := true);
    }

    if mirrored && !tile.isDuplicate {
      var flipped := TileFlipX(tile);
      found := FindDuplicate(flipped, tiles);
      tile := tile.(original := found);
      if found.Some? {
        tile := tile.(flippedX := true, isDuplicate := true);
      } else {
        flipped := TileFlipY(tile);
        found := FindDuplicate(flipped, tiles);
        tile := tile.(original := found);
        if found.Some? {
          tile := tile.(flippedY := true, isDuplicate := true);
        } else {
          flipped := TileFlipXY(tile);
          found := FindDuplicate(flipped, tiles);
          tile := tile.(original := found);
          if found.Some? {
            tile := tile.(flippedX := true, flippedY := true, isDuplicate := true);
          }
        }
      }
    }
  }

  // ---------------------------------------------------------------------
  // add_new_tile and the store

  class TileStore {
    var tiles: seq<MapTile>

    constructor ()
      ensures tiles == []
    {
      tiles := [];
    }

    /**
     * add_new_tile: the tile's id becomes the store size (in 16 bits) and the
     * tile is appended; the returned value is the tile as stored.
     */
    method AddNewTile(tile: MapTile) returns (stored: MapTile)
      modifies this
      ensures stored == tile.(id := |old(tiles)| % 0x1_0000)
      ensures tiles == old(tiles) + [stored]
    {
      stored := tile.(id := |tiles| % 0x1_0000);
      tiles := tiles + [stored];
    }
  }

  // ---------------------------------------------------------------------
  // The tiling loops of process_file

  /** One block of the scan: createTile, add_new_tile when it applies, and the push onto the tilemap. */
  function Register(b: Built, block: seq<Pixel>, mirror: bool, removeDups: bool): (r: Built)
    requires |block| == NUM_PIXELS_IN_TILE
    ensures |r.tilemap| == |b.tilemap| + 1 && r.tilemap[..|b.tilemap|] == b.tilemap
    ensures r.tilemap[|b.tilemap|].data == block
    ensures !r.tilemap[|b.tilemap|].isDuplicate || !removeDups ==>
              r.tiles == b.tiles + [r.tilemap[|b.tilemap|]] && r.tilemap[|b.tilemap|].id == |b.tiles| % 0x1_0000
    ensures r.tilemap[|b.tilemap|].isDuplicate && removeDups ==> r.tiles == b.tiles
    ensures AllSized(b.tiles) ==> AllSized(r.tiles)
  {
    var t := CreateTileSpec(block, b.tiles, mirror);
    if !t.isDuplicate || !removeDups then
      var stored := t.(id := |b.tiles| % 0x1_0000);
      Built(b.tiles + [stored], b.tilemap + [stored])
    else
      Built(b.tiles, b.tilemap + [t])
  }

  ghost predicate BlocksSized(blocks: seq<seq<Pixel>>)
  {
    forall i | 0 <= i < |blocks| :: |blocks[i]| == NUM_PIXELS_IN_TILE
  }

  /** Registering a sequence of blocks in order, one `Register` per block. */
  function RegisterAll(b: Built, blocks: seq<seq<Pixel>>, mirror: bool, removeDups: bool): (r: Built)
    requires BlocksSized(blocks)
    ensures |r.tilemap| == |b.tilemap| + |blocks|
    ensures AllSized(b.tiles) ==> AllSized(r.tiles)
    decreases |blocks|
  {
    if blocks == [] then b
    else
      var n := |blocks| - 1;
      Register(RegisterAll(b, blocks[..n], mirror, removeDups), blocks[n], mirror, removeDups)
  }

  /**
   * The tilemap grows by one entry per block, entry by entry holding the
   * blocks' pixels, and nothing already in the tilemap changes.
   */
  lemma {:induction false} RegisterAllTilemap(b: Built, blocks: seq<seq<Pixel>>, mirror: bool, removeDups: bool)
    requires BlocksSized(blocks)
    ensures RegisterAll(b, blocks, mirror, removeDups).tilemap[..|b.tilemap|] == b.tilemap
    ensures forall i | 0 <= i < |blocks| ::
              RegisterAll(b, blocks, mirror, removeDups).tilemap[|b.tilemap| + i].data == blocks[i]
    decreases |blocks|
  {
    if blocks == [] {
      assert RegisterAll(b, blocks, mirror, removeDups) == b;
    } else {
      var n := |blocks| - 1;
      var prev := RegisterAll(b, blocks[..n], mirror, removeDups);
      RegisterAllTilemap(b, blocks[..n], mirror, removeDups);
      var e := Register(prev, blocks[n], mirror, removeDups).tilemap[|prev.tilemap|];
      RegisterAppends(prev, blocks[n], mirror, removeDups);
      assert RegisterAll(b, blocks, mirror, removeDups).tilemap == prev.tilemap + [e];
      AppendKeepsPrefix(prev.tilemap, e, |b.tilemap|);
      forall i | 0 <= i < |blocks|
        ensures (prev.tilemap + [e])[|b.tilemap| + i].data == blocks[i]
      {
        if i < n {
          assert blocks[..n][i] == blocks[i];
        }
      }
    }
  }

  /** `Register` appends exactly one entry to the tilemap. */
  lemma RegisterAppends(b: Built, block: seq<Pixel>, mirror: bool, removeDups: bool)
    requires |block| == NUM_PIXELS_IN_TILE
    ensures Register(b, block, mirror, removeDups).tilemap ==
            b.tilemap + [Register(b, block, mirror, removeDups).tilemap[|b.tilemap|]]
  {
    var r := Register(b, block, mirror, removeDups);
    assert r.tilemap == r.tilemap[..|b.tilemap|] + [r.tilemap[|b.tilemap|]];
  }

  lemma AppendKeepsPrefix<T>(s: seq<T>, e: T, len: nat)
    requires len <= |s|
    ensures (s + [e])[..len] == s[..len]
  {
  }

  /** The width checks and the height checks of process_file (main.cpp:860-873). */
  predicate ImageFits(image: Image, size: TileSize)
  {
    image.width % TILE_WIDTH == 0 &&
    (size == Tile8x8 ==> image.height % TILE_HEIGHT == 0) &&
    (size == Tile8x16 ==> image.height % 16 == 0)
  }

  /** The y coordinate of the top of band `band`: one tile row per band, or two for 8x16 tiles. */
  function BandTop(size: TileSize, band: nat): nat
  {
    if size == Tile8x8 then 8 * band else 16 * band
  }

  function Columns(image: Image): nat
  {
    if image.width < 0 then 0 else image.width / 8
  }

  function Bands(image: Image, size: TileSize): nat
  {
    if image.height < 0 then 0
    else if size == Tile8x8 then image.height / 8 else image.height / 16
  }

  /**
   * The blocks the scan registers at column `col` of band `band`: in 8x8 mode
   * the one block there, in 8x16 mode the top block and then the block below it.
   */
  function ColumnBlocks(image: DecodedImage, size: TileSize, band: nat, col: nat): (r: seq<seq<Pixel>>)
    requires band < Bands(image, size) && col < Columns(image)
    ensures BlocksSized(r)
    ensures size == Tile8x8 ==> r == [Block(image, 8 * col, 8 * band)]
    ensures size == Tile8x16 ==> r == [Block(image, 8 * col, 16 * band), Block(image, 8 * col, 16 * band + 8)]
  {
    if size == Tile8x8 then [Block(image, 8 * col, 8 * band)]
    else [Block(image, 8 * col, 16 * band), Block(image, 8 * col, 16 * band + 8)]
  }

  /**
   * The blocks of the scan, in the order the loops visit them, up to column
   * `col` of band `band`: band by band from the top, column by column from
   * the left.
   */
  function BlocksAt(image: DecodedImage, size: TileSize, band: nat, col: nat): (r: seq<seq<Pixel>>)
    requires band <= Bands(image, size) && col <= Columns(image)
    requires col > 0 ==> band < Bands(image, size)
    ensures BlocksSized(r)
    decreases band, col
  {
    if col == 0 then
      if band == 0 then [] else BlocksAt(image, size, band - 1, Columns(image))
    else
      BlocksAt(image, size, band, col - 1) + ColumnBlocks(image, size, band, col - 1)
  }

  /** Every block of the image, in scan order. */
  function ScanBlocks(image: DecodedImage, size: TileSize): (r: seq<seq<Pixel>>)
    ensures BlocksSized(r)
  {
    BlocksAt(image, size, Bands(image, size), 0)
  }

  /** The blocks each column of a band contributes: one, or two in 8x16 mode. */
  function PerColumn(size: TileSize): nat
  {
    if size.Tile8x8? then 1 else 2
  }

  /** The scan holds `PerColumn` blocks for every column it has passed. */
  lemma {:induction false} BlocksAtLength(image: DecodedImage, size: TileSize, band: nat, col: nat)
    requires band <= Bands(image, size) && col <= Columns(image)
    requires col > 0 ==> band < Bands(image, size)
    ensures |BlocksAt(image, size, band, col)| == PerColumn(size) * (band * Columns(image) + col)
    decreases band, col
  {
    var columns := Columns(image);
    if col == 0 {
      if band > 0 {
        BlocksAtLength(image, size, band - 1, columns);
        assert (band - 1) * columns + columns == band * columns;
      }
    } else {
      BlocksAtLength(image, size, band, col - 1);
      assert PerColumn(size) * (band * columns + col - 1) + PerColumn(size) ==
             PerColumn(size) * (band * columns + col);
    }
  }

  lemma MulMono(a: nat, a': nat, n: nat)
    requires a <= a'
    ensures a * n <= a' * n
  {
  }

  /** Row-major positions are unique: equal positions have equal row and column. */
  lemma RowMajorUnique(b: nat, c: nat, b': nat, c': nat, columns: nat)
    requires c < columns && c' < columns && b * columns + c == b' * columns + c'
    ensures b == b' && c == c'
  {
    if b < b' {
      MulMono(b + 1, b', columns);
    } else if b' < b {
      MulMono(b' + 1, b, columns);
    }
  }

  /** A row-major position before the start of row `band` lies in an earlier row. */
  lemma RowMajorBefore(b: nat, c: nat, band: nat, columns: nat)
    requires b * columns + c < band * columns
    ensures b < band
  {
    if b >= band {
      MulMono(band, b, columns);
    }
  }

  /** Where half `h` of the column at (c, b) stands in the scan. */
  function ScanPosition(size: TileSize, columns: nat, b: nat, c: nat, h: nat): nat
  {
    PerColumn(size) * (b * columns + c) + h
  }

  /**
   * Block (c, b) of the scan, and in 8x16 mode its half `h`, sits at
   * position PerColumn * (b * Columns + c) + h: band by band, column by
   * column, the top block of a column before the block below it.
   */
  lemma {:induction false} BlocksAtBlock(image: DecodedImage, size: TileSize, band: nat, col: nat,
                                         b: nat, c: nat, h: nat)
    requires band <= Bands(image, size) && col <= Columns(image)
    requires col > 0 ==> band < Bands(image, size)
    requires c < Columns(image) && h < PerColumn(size)
    requires b * Columns(image) + c < band * Columns(image) + col
    ensures b < Bands(image, size)
    ensures ScanPosition(size, Columns(image), b, c, h) < |BlocksAt(image, size, band, col)|
    ensures BlocksAt(image, size, band, col)[ScanPosition(size, Columns(image), b, c, h)] ==
            ColumnBlocks(image, size, b, c)[h]
    decreases band, col
  {
    var columns := Columns(image);
    if col == 0 {
      RowMajorBefore(b, c, band, columns);
      assert (band - 1) * columns + columns == band * columns;
      BlocksAtBlock(image, size, band - 1, columns, b, c, h);
      assert BlocksAt(image, size, band, col) == BlocksAt(image, size, band - 1, columns);
    } else {
      var prefix := BlocksAt(image, size, band, col - 1);
      var column := ColumnBlocks(image, size, band, col - 1);
      assert BlocksAt(image, size, band, col) == prefix + column;
      if b * columns + c < band * columns + col - 1 {
        BlocksAtBlock(image, size, band, col - 1, b, c, h);
        IndexInPrefix(prefix, column, ScanPosition(size, columns, b, c, h));
      } else {
        RowMajorUnique(b, c, band, col - 1, columns);
        BlocksAtLength(image, size, band, col - 1);
        IndexInSuffix(prefix, column, h);
      }
    }
  }

  /** The whole scan holds half `h` of the column at (c, b) at its scan position. */
  lemma ScanBlockAt(image: DecodedImage, size: TileSize, b: nat, c: nat, h: nat)
    requires b < Bands(image, size) && c < Columns(image) && h < PerColumn(size)
    ensures BlockInside(image, 8 * c, BandTop(size, b) + 8 * h)
    ensures ScanPosition(size, Columns(image), b, c, h) < |ScanBlocks(image, size)|
    ensures ScanBlocks(image, size)[ScanPosition(size, Columns(image), b, c, h)] ==
            Block(image, 8 * c, BandTop(size, b) + 8 * h)
  {
    MulMono(b + 1, Bands(image, size), Columns(image));
    BlocksAtBlock(image, size, Bands(image, size), 0, b, c, h);
    ColumnBlock(image, size, b, c, h);
  }

  lemma IndexInPrefix<T>(a: seq<T>, b: seq<T>, i: nat)
    requires i < |a|
    ensures (a + b)[i] == a[i]
  {
  }

  lemma IndexInSuffix<T>(a: seq<T>, b: seq<T>, j: nat)
    requires j < |b|
    ensures (a + b)[|a| + j] == b[j]
  {
  }

  /** Half `h` of the column at (c, b) is the block `h` tile rows below the band's top. */
  lemma ColumnBlock(image: DecodedImage, size: TileSize, b: nat, c: nat, h: nat)
    requires b < Bands(image, size) && c < Columns(image) && h < PerColumn(size)
    ensures BlockInside(image, 8 * c, BandTop(size, b) + 8 * h)
    ensures ColumnBlocks(image, size, b, c)[h] == Block(image, 8 * c, BandTop(size, b) + 8 * h)
  {
    if size.Tile8x16? && h == 1 {
      assert BandTop(size, b) + 8 * h == 16 * b + 8;
    }
  }

  /** The store and the tilemap after the whole image has been scanned. */
  function Build(image: DecodedImage, config: Config): (r: Built)
    ensures |r.tilemap| == |ScanBlocks(image, config.tileSize)|
  {
    RegisterAll(Built([], []), ScanBlocks(image, config.tileSize), config.mirror, config.removeDups)
  }

  /**
   * One block inside a band: createTile, add_new_tile unless the tile is a
   * duplicate that is to be removed, and the push onto the tilemap.
   */
  method RegisterBlock(store: TileStore, tilemap: seq<MapTile>, image: DecodedImage, x: int, y: int, config: Config)
    returns (tilemap': seq<MapTile>)
    requires BlockInside(image, x, y) && AllSized(store.tiles)
    modifies store
    ensures Built(store.tiles, tilemap') ==
            Register(Built(old(store.tiles), tilemap), Block(image, x, y), config.mirror, config.removeDups)
    ensures AllSized(store.tiles)
  {
    var tile := CreateTile(image, x, y, store.tiles, config.mirror);
    if !tile.isDuplicate || !config.removeDups {
      tile := store.AddNewTile(tile);
    }
    tilemap' := tilemap + [tile];
  }

  /**
   * The tiling loops of process_file (main.cpp:860-907): reject an image whose
   * size is not a whole number of tiles, then scan it band by band from the
   * top, registering every block; a band is one tile row, or two in 8x16 mode.
   */
  method BuildTilemap(image: DecodedImage, config: Config) returns (ok: bool, tiles: seq<MapTile>, tilemap: seq<MapTile>)
    ensures ok == ImageFits(image, config.tileSize)
    ensures ok ==> Built(tiles, tilemap) == Build(image, config)
  {
    if image.width % TILE_WIDTH != 0 {
      return false, [], [];
    }
    if config.tileSize == Tile8x8 && image.height % TILE_HEIGHT != 0 {
      return false, [], [];
    }
    if config.tileSize == Tile8x16 && image.height % 16 != 0 {
      return false, [], [];
    }
    ok := true;
    var store := new TileStore();
    tilemap := [];
    var y := 0;
    ghost var band: nat := 0;
    var bandHeight := if config.tileSize == Tile8x8 then TILE_HEIGHT else TILE_HEIGHT * 2;
    while y < image.height
      invariant y == BandTop(config.tileSize, band) && band <= Bands(image, config.tileSize)
      invariant Built(store.tiles, tilemap) == Scanned(image, config, band, 0)
    {
      tilemap := ScanBand(store, tilemap, image, config, band, y);
      y := y + bandHeight;
      band := band + 1;
    }
    tiles := store.tiles;
  }

  /**
   * The inner loop of process_file: one band, column by column from the left.
   */
  method ScanBand(store: TileStore, tilemap: seq<MapTile>, image: DecodedImage, config: Config, ghost band: nat, y: int)
    returns (tilemap': seq<MapTile>)
    requires image.width % TILE_WIDTH == 0 && band < Bands(image, config.tileSize)
    requires y == BandTop(config.tileSize, band)
    requires Built(store.tiles, tilemap) == Scanned(image, config, band, 0)
    modifies store
    ensures Built(store.tiles, tilemap') == Scanned(image, config, band + 1, 0)
  {
    var x := 0;
    ghost var col: nat := 0;
    tilemap' := tilemap;
    while x < image.width
      invariant x == TILE_WIDTH * col && col <= Columns(image)
      invariant Built(store.tiles, tilemap') == Scanned(image, config, band, col)
    {
      tilemap' := ScanColumn(store, tilemap', image, config, band, col, x, y);
      x := x + TILE_WIDTH;
      col := col + 1;
    }
    NextBand(image, config, band, col);
  }

  /**
   * The body of the inner loop of process_file: the block at (x, y) and, in
   * 8x16 mode, the block below it, each through createTile, add_new_tile
   * and the push onto the tilemap.
   */
  method ScanColumn(store: TileStore, tilemap: seq<MapTile>, image: DecodedImage, config: Config,
                    ghost band: nat, ghost col: nat, x: int, y: int)
    returns (tilemap': seq<MapTile>)
    requires band < Bands(image, config.tileSize) && col < Columns(image)
    requires x == TILE_WIDTH * col && y == BandTop(config.tileSize, band)
    requires Built(store.tiles, tilemap) == Scanned(image, config, band, col)
    modifies store
    ensures Built(store.tiles, tilemap') == Scanned(image, config, band, col + 1)
  {
    if config.tileSize == Tile8x8 {
      ColumnStep8x8(image, config, band, col);
      tilemap' := RegisterBlock(store, tilemap, image, x, y, config);
    } else {
      ColumnStep8x16(image, config, band, col);
      tilemap' := RegisterBlock(store, tilemap, image, x, y, config);
      tilemap' := RegisterBlock(store, tilemap', image, x, y + TILE_HEIGHT, config);
    }
  }

  /** What the scan has built once it reaches column `col` of band `band`. */
  function Scanned(image: DecodedImage, config: Config, band: nat, col: nat): (r: Built)
    requires band <= Bands(image, config.tileSize) && col <= Columns(image)
    requires col > 0 ==> band < Bands(image, config.tileSize)
    ensures AllSized(r.tiles)
  {
    RegisterAll(Built([], []), BlocksAt(image, config.tileSize, band, col), config.mirror, config.removeDups)
  }

  /** In 8x8 mode, scanning one more column registers the block there. */
  lemma ColumnStep8x8(image: DecodedImage, config: Config, band: nat, col: nat)
    requires config.tileSize == Tile8x8
    requires band < Bands(image, config.tileSize) && col < Columns(image)
    ensures Scanned(image, config, band, col + 1) ==
            Register(Scanned(image, config, band, col), Block(image, 8 * col, 8 * band),
                     config.mirror, config.removeDups)
  {
    var before := BlocksAt(image, config.tileSize, band, col);
    RegisterAllSnoc(Built([], []), before, Block(image, 8 * col, 8 * band), config.mirror, config.removeDups);
  }

  /** In 8x16 mode, scanning one more column registers its top block and then the block below it. */
  lemma ColumnStep8x16(image: DecodedImage, config: Config, band: nat, col: nat)
    requires config.tileSize == Tile8x16
    requires band < Bands(image, config.tileSize) && col < Columns(image)
    ensures Scanned(image, config, band, col + 1) ==
            Register(Register(Scanned(image, config, band, col), Block(image, 8 * col, 16 * band),
                              config.mirror, config.removeDups),
                     Block(image, 8 * col, 16 * band + 8), config.mirror, config.removeDups)
  {
    var before := BlocksAt(image, config.tileSize, band, col);
    var top, bottom := Block(image, 8 * col, 16 * band), Block(image, 8 * col, 16 * band + 8);
    RegisterAllSnoc(Built([], []), before, top, config.mirror, config.removeDups);
    RegisterAllSnoc(Built([], []), before + [top], bottom, config.mirror, config.removeDups);
    assert before + [top, bottom] == before + [top] + [bottom];
  }

  /** Registering one more block is one more `Register`. */
  lemma RegisterAllSnoc(b: Built, blocks: seq<seq<Pixel>>, block: seq<Pixel>, mirror: bool, removeDups: bool)
    requires BlocksSized(blocks) && |block| == NUM_PIXELS_IN_TILE
    ensures BlocksSized(blocks + [block])
    ensures RegisterAll(b, blocks + [block], mirror, removeDups) ==
            Register(RegisterAll(b, blocks, mirror, removeDups), block, mirror, removeDups)
  {
    assert (blocks + [block])[..|blocks|] == blocks;
  }

  /** A band ends after its last column; the next band starts from there. */
  lemma NextBand(image: DecodedImage, config: Config, band: nat, col: nat)
    requires image.width % TILE_WIDTH == 0
    requires band < Bands(image, config.tileSize) && col <= Columns(image) && TILE_WIDTH * col >= image.width
    ensures col == Columns(image)
    ensures Scanned(image, config, band + 1, 0) == Scanned(image, config, band, col)
  {
  }

  // ---------------------------------------------------------------------
  // What the scan guarantees

  /** No stored tile repeats an earlier one, and with mirroring none repeats an earlier one's flips. */
  ghost predicate NoDuplicates(tiles: seq<MapTile>, mirror: bool)
    requires AllSized(tiles)
  {
    forall i, j | 0 <= i < j < |tiles| ::
      tiles[j].data != tiles[i].data &&
      (mirror ==> tiles[j].data != FlipX(tiles[i].data) && tiles[j].data != FlipY(tiles[i].data) &&
                  tiles[j].data != FlipXY(tiles[i].data))
  }

  /** A tilemap entry is either a stored tile itself or the stored original turned by its flags. */
  ghost predicate Resolves(t: MapTile, tiles: seq<MapTile>, mirror: bool)
    requires AllSized(tiles)
  {
    && |t.data| == NUM_PIXELS_IN_TILE
    && (t.isDuplicate <==> t.original.Some?)
    && (t.isDuplicate ==> t.original.value < |tiles| &&
                          t.data == Orient(t.flippedX, t.flippedY, tiles[t.original.value].data))
    && (!t.isDuplicate ==> !t.flippedX && !t.flippedY && t in tiles)
    && (!mirror ==> !t.flippedX && !t.flippedY)
  }

  /** Every tilemap entry resolves against the store. */
  ghost predicate AllResolve(tilemap: seq<MapTile>, tiles: seq<MapTile>, mirror: bool)
    requires AllSized(tiles)
  {
    forall k | 0 <= k < |tilemap| :: Resolves(tilemap[k], tiles, mirror)
  }

  ghost predicate StoreInvariant(b: Built, mirror: bool, removeDups: bool)
  {
    && AllSized(b.tiles)
    && (forall k | 0 <= k < |b.tiles| :: b.tiles[k].id == k % 0x1_0000)
    && AllResolve(b.tilemap, b.tiles, mirror)
    && (removeDups ==> NoDuplicates(b.tiles, mirror))
    && (!removeDups ==> b.tiles == b.tilemap)
  }

  /** An entry that resolves against the store still does once the store grows. */
  lemma ResolvesGrow(t: MapTile, tiles: seq<MapTile>, extra: MapTile, mirror: bool)
    requires AllSized(tiles) && AllSized(tiles + [extra]) && Resolves(t, tiles, mirror)
    ensures Resolves(t, tiles + [extra], mirror)
  {
    if t.isDuplicate {
      assert (tiles + [extra])[t.original.value] == tiles[t.original.value];
    }
  }

  /** The entry a `Register` pushes resolves, and so do all the earlier ones. */
  lemma RegisterResolves(b: Built, block: seq<Pixel>, mirror: bool, removeDups: bool)
    requires |block| == NUM_PIXELS_IN_TILE && AllSized(b.tiles)
    requires AllResolve(b.tilemap, b.tiles, mirror)
    ensures AllResolve(Register(b, block, mirror, removeDups).tilemap,
                       Register(b, block, mirror, removeDups).tiles, mirror)
  {
    var r := Register(b, block, mirror, removeDups);
    var t := CreateTileSpec(block, b.tiles, mirror);
    CreateTileDecision(block, b.tiles, mirror);
    CreateTileResolves(block, b.tiles, mirror);
    var n := |b.tilemap|;
    if !t.isDuplicate || !removeDups {
      var stored := t.(id := |b.tiles| % 0x1_0000);
      assert r.tiles == b.tiles + [stored] && r.tilemap == b.tilemap + [stored];
      forall k | 0 <= k < |r.tilemap|
        ensures Resolves(r.tilemap[k], r.tiles, mirror)
      {
        if k < n {
          ResolvesGrow(b.tilemap[k], b.tiles, stored, mirror);
        } else if stored.isDuplicate {
          assert r.tiles[stored.original.value] == b.tiles[stored.original.value];
        } else {
          assert r.tiles[|b.tiles|] == stored;
        }
      }
    } else {
      assert r.tiles == b.tiles && r.tilemap == b.tilemap + [t];
    }
  }

  /** With duplicates removed, a `Register` stores only blocks that no stored tile repeats. */
  lemma RegisterNoDuplicates(b: Built, block: seq<Pixel>, mirror: bool)
    requires |block| == NUM_PIXELS_IN_TILE && AllSized(b.tiles) && NoDuplicates(b.tiles, mirror)
    ensures NoDuplicates(Register(b, block, mirror, true).tiles, mirror)
  {
    var r := Register(b, block, mirror, true);
    var t := CreateTileSpec(block, b.tiles, mirror);
    if !t.isDuplicate {
      var stored := t.(id := |b.tiles| % 0x1_0000);
      assert r.tiles == b.tiles + [stored];
      CreateTileNew(block, b.tiles, mirror);
      forall i, j | 0 <= i < j < |r.tiles|
        ensures r.tiles[j].data != r.tiles[i].data
        ensures mirror ==> r.tiles[j].data != FlipX(r.tiles[i].data) &&
                           r.tiles[j].data != FlipY(r.tiles[i].data) &&
                           r.tiles[j].data != FlipXY(r.tiles[i].data)
      {
        if j < |b.tiles| {
          assert r.tiles[j] == b.tiles[j] && r.tiles[i] == b.tiles[i];
        } else {
          assert r.tiles[j] == stored && r.tiles[i] == b.tiles[i];
        }
      }
    }
  }

  lemma RegisterKeepsInvariant(b: Built, block: seq<Pixel>, mirror: bool, removeDups: bool)
    requires |block| == NUM_PIXELS_IN_TILE
    requires StoreInvariant(b, mirror, removeDups)
    ensures StoreInvariant(Register(b, block, mirror, removeDups), mirror, removeDups)
  {
    RegisterResolves(b, block, mirror, removeDups);
    if removeDups {
      RegisterNoDuplicates(b, block, mirror);
    }
  }

  /** Registering any sequence of blocks keeps the store invariant. */
  lemma {:induction false} RegisterAllKeepsInvariant(b: Built, blocks: seq<seq<Pixel>>, mirror: bool, removeDups: bool)
    requires BlocksSized(blocks) && StoreInvariant(b, mirror, removeDups)
    ensures StoreInvariant(RegisterAll(b, blocks, mirror, removeDups), mirror, removeDups)
    decreases |blocks|
  {
    if blocks != [] {
      var n := |blocks| - 1;
      RegisterAllKeepsInvariant(b, blocks[..n], mirror, removeDups);
      RegisterKeepsInvariant(RegisterAll(b, blocks[..n], mirror, removeDups), blocks[n], mirror, removeDups);
    }
  }

  /**
   * After the scan, every stored tile has its store position as id, every
   * tilemap entry resolves to a stored tile, the store holds no repeats when
   * duplicates are removed, and it is the tilemap itself when they are not.
   */
  lemma BuildInvariant(image: DecodedImage, config: Config)
    ensures StoreInvariant(Build(image, config), config.mirror, config.removeDups)
  {
    RegisterAllKeepsInvariant(Built([], []), ScanBlocks(image, config.tileSize), config.mirror, config.removeDups);
  }

  /**
   * parse_args ends by switching duplicate removal off in 8x16 mode
   * (main.cpp:417-420); the other options are kept as given.
   */
  function Settle(config: Config): (r: Config)
    ensures r.tileSize == config.tileSize && r.mirror == config.mirror
    ensures r.removeDups <==> config.removeDups && config.tileSize.Tile8x8?
  {
    if config.tileSize == Tile8x16 && config.removeDups then config.(removeDups := false) else config
  }

  /** In 8x16 mode every scanned block is stored, in scan order: the store is the tilemap. */
  lemma Settled8x16StoresEveryBlock(image: DecodedImage, config: Config)
    requires config.tileSize == Tile8x16
    ensures Build(image, Settle(config)).tiles == Build(image, Settle(config)).tilemap
  {
    BuildInvariant(image, Settle(config));
  }

  /** The tilemap holds one entry per block of the image, in scan order, each with that block's pixels. */
  lemma BuildOrder(image: DecodedImage, config: Config)
    ensures forall i | 0 <= i < |ScanBlocks(image, config.tileSize)| ::
              Build(image, config).tilemap[i].data == ScanBlocks(image, config.tileSize)[i]
  {
    RegisterAllTilemap(Built([], []), ScanBlocks(image, config.tileSize), config.mirror, config.removeDups);
  }
}
