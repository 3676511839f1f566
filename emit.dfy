/**
 * The values main.cpp's writers compute: the 16-bit tilemap words of
 * write_tilemap_file, the TMX global tile ids of get_tmx_tile_id and the
 * order write_tmx_file visits them in, the planar and chunky tile bytes of
 * write_tiles, and the colour words of the palette writers.  The text
 * formatting and the file streams around them are not modelled.
 */
module Emit {
  import opened TileGeometry
  import opened TileMap

  type Int32 = x: int | -0x8000_0000 <= x < 0x8000_0000

  const TILEMAP_H_FLIP_FLAG: bv16 := 0x0200
  const TILEMAP_V_FLIP_FLAG: bv16 := 0x0400
  const TILEMAP_SPRITE_PALETTE_FLAG: bv16 := 0x0800
  const TILEMAP_INFRONT_FLAG: bv16 := 0x1000
  const TMX_FLIP_X_FLAG: bv32 := 0x8000_0000
  const TMX_FLIP_Y_FLAG: bv32 := 0x4000_0000

  /** The options of main.cpp's `Config` that shape a tilemap word. */
  datatype WordOptions = WordOptions(tileStartOffset: Int32, useSpritePal: bool, inFront: bool)

  // ---------------------------------------------------------------------
  // Resolving a tilemap entry to a stored tile

  /** Every duplicate in the tilemap names a position inside the store. */
  ghost predicate OriginalsStored(tilemap: seq<MapTile>, tiles: seq<MapTile>)
  {
    forall i | 0 <= i < |tilemap| :: tilemap[i].original.Some? ==> tilemap[i].original.value < |tiles|
  }

  /**
   * The id a writer prints for an entry: its original's id when it has one
   * (one level only), its own id otherwise.
   */
  function ResolvedId(t: MapTile, tiles: seq<MapTile>): (id: Uint16)
    requires t.original.Some? ==> t.original.value < |tiles|
    ensures t.original.Some? ==> id == tiles[t.original.value].id
    ensures t.original.None? ==> id == t.id
  {
    if t.original.Some? then tiles[t.original.value].id else t.id
  }

  /**
   * On a store built by the scan, the id a tilemap entry resolves to is the
   * position (in 16 bits) of a stored tile whose pixels, turned by the
   * entry's flip flags, are the entry's block.
   */
  lemma ResolvedIdNamesStoredTile(b: Built, mirror: bool, removeDups: bool, i: nat)
    requires StoreInvariant(b, mirror, removeDups) && i < |b.tilemap|
    ensures b.tilemap[i].original.Some? ==> b.tilemap[i].original.value < |b.tiles|
    ensures exists k | 0 <= k < |b.tiles| ::
              && ResolvedId(b.tilemap[i], b.tiles) == k % 0x1_0000
              && b.tilemap[i].data == Orient(b.tilemap[i].flippedX, b.tilemap[i].flippedY, b.tiles[k].data)
  {
    var t := b.tilemap[i];
    assert Resolves(t, b.tiles, mirror);
    if t.isDuplicate {
      var k := t.original.value;
      assert ResolvedId(t, b.tiles) == k % 0x1_0000;
    } else {
      var k :| 0 <= k < |b.tiles| && b.tiles[k] == t;
      assert ResolvedId(t, b.tiles) == k % 0x1_0000;
      assert Orient(false, false, t.data) == t.data;
    }
  }

  // ---------------------------------------------------------------------
  // write_tilemap_file

  /**
   * The tilemap word of one entry: the resolved id plus the tile start
   * offset, truncated to 16 bits, with the flip, sprite palette and priority
   * flags ORed in.
   */
  function TilemapWord(t: MapTile, tiles: seq<MapTile>, options: WordOptions): (w: bv16)
    requires t.original.Some? ==> t.original.value < |tiles|
  {
    var base := ((ResolvedId(t, tiles) + options.tileStartOffset) % 0x1_0000) as bv16;
    base
    | (if t.flippedX then TILEMAP_H_FLIP_FLAG else 0)
    | (if t.flippedY then TILEMAP_V_FLIP_FLAG else 0)
    | (if options.useSpritePal then TILEMAP_SPRITE_PALETTE_FLAG else 0)
    | (if options.inFront then TILEMAP_INFRONT_FLAG else 0)
  }

  /** The fields a tilemap word packs, as a reader of the word takes them apart. */
  datatype WordFields = WordFields(tile: bv16, flipX: bool, flipY: bool, spritePal: bool, inFront: bool)

  function DecodeTilemapWord(w: bv16): (f: WordFields)
    ensures f.tile < 0x200
  {
    WordFields(w & 0x1FF, w & TILEMAP_H_FLIP_FLAG != 0, w & TILEMAP_V_FLIP_FLAG != 0,
               w & TILEMAP_SPRITE_PALETTE_FLAG != 0, w & TILEMAP_INFRONT_FLAG != 0)
  }

  /**
   * While the offset id fits the nine index bits, a tilemap word decodes to
   * exactly that id and flags, and its top three bits are clear; from 0x200
   * on the id runs into the flag bits.
   */
  lemma TilemapWordDecodes(t: MapTile, tiles: seq<MapTile>, options: WordOptions)
    requires t.original.Some? ==> t.original.value < |tiles|
    requires (ResolvedId(t, tiles) + options.tileStartOffset) % 0x1_0000 < 0x200
    ensures DecodeTilemapWord(TilemapWord(t, tiles, options)) ==
            WordFields(((ResolvedId(t, tiles) + options.tileStartOffset) % 0x1_0000) as bv16,
                       t.flippedX, t.flippedY, options.useSpritePal, options.inFront)
    ensures TilemapWord(t, tiles, options) & 0xE000 == 0
  {
    var base := ((ResolvedId(t, tiles) + options.tileStartOffset) % 0x1_0000) as bv16;
    assert base & 0x1FF == base && base & 0xFE00 == 0 by {
      assert base < 0x200;
    }
  }

  /** The words write_tilemap_file collects in `outbuf`, one per tilemap entry, in tilemap order. */
  method WriteTilemap(tilemap: seq<MapTile>, tiles: seq<MapTile>, options: WordOptions) returns (outbuf: seq<bv16>)
    requires OriginalsStored(tilemap, tiles)
    ensures |outbuf| == |tilemap|
    ensures forall i | 0 <= i < |tilemap| :: outbuf[i] == TilemapWord(tilemap[i], tiles, options)
  {
    outbuf := [];
    var totalTiles := |tilemap|;
    for i := 0 to totalTiles
      invariant |outbuf| == i
      invariant forall j | 0 <= j < i :: outbuf[j] == TilemapWord(tilemap[j], tiles, options)
    {
      var id := EntryWord(tilemap[i], tiles, options);
      outbuf := outbuf + [id];
    }
  }

  /** The body of write_tilemap_file's loop: one entry's word, built flag by flag. */
  method EntryWord(t: MapTile, tiles: seq<MapTile>, options: WordOptions) returns (id: bv16)
    requires t.original.Some? ==> t.original.value < |tiles|
    ensures id == TilemapWord(t, tiles, options)
  {
    var resolved := if t.original.Some? then tiles[t.original.value].id else t.id;
    id := ((resolved + options.tileStartOffset) % 0x1_0000) as bv16;
    if t.flippedX {
      id := id | TILEMAP_H_FLIP_FLAG;
    }
    if t.flippedY {
      id := id | TILEMAP_V_FLIP_FLAG;
    }
    if options.useSpritePal {
      id := id | TILEMAP_SPRITE_PALETTE_FLAG;
    }
    if options.inFront {
      id := id | TILEMAP_INFRONT_FLAG;
    }
  }

  // ---------------------------------------------------------------------
  // get_tmx_tile_id

  /**
   * The TMX global id of an entry: the resolved id plus one (TMX numbers
   * tiles from 1, 0 meaning no tile), with the flip flags in the top two bits.
   */
  function TmxTileId(t: MapTile, tiles: seq<MapTile>): (gid: bv32)
    requires t.original.Some? ==> t.original.value < |tiles|
    ensures gid & 0x3FFF_FFFF == (ResolvedId(t, tiles) + 1) as bv32
    ensures gid & TMX_FLIP_X_FLAG != 0 <==> t.flippedX
    ensures gid & TMX_FLIP_Y_FLAG != 0 <==> t.flippedY
    ensures gid != 0
  {
    IdBelowFlags(ResolvedId(t, tiles));
    TmxGid((ResolvedId(t, tiles) + 1) as bv32, t.flippedX, t.flippedY)
  }

  /** An id below the two flag bits, with the flags ORed in above it. */
  function TmxGid(id: bv32, flipX: bool, flipY: bool): (gid: bv32)
    requires 0 < id < 0x4000_0000
    ensures gid & 0x3FFF_FFFF == id
    ensures gid & TMX_FLIP_X_FLAG != 0 <==> flipX
    ensures gid & TMX_FLIP_Y_FLAG != 0 <==> flipY
    ensures gid != 0
  {
    var gid := id | (if flipX then TMX_FLIP_X_FLAG else 0) | (if flipY then TMX_FLIP_Y_FLAG else 0);
    TmxFlagBits(id, flipX, flipY, gid);
    gid
  }

  lemma TmxFlagBits(id: bv32, flipX: bool, flipY: bool, gid: bv32)
    requires 0 < id < 0x4000_0000
    requires gid == id | (if flipX then TMX_FLIP_X_FLAG else 0) | (if flipY then TMX_FLIP_Y_FLAG else 0)
    ensures gid & 0x3FFF_FFFF == id && gid != 0
    ensures gid & TMX_FLIP_X_FLAG != 0 <==> flipX
    ensures gid & TMX_FLIP_Y_FLAG != 0 <==> flipY
  {
  }

  lemma IdBelowFlags(n: Uint16)
    ensures 0 < (n + 1) as bv32 < 0x4000_0000
  {
  }

  // ---------------------------------------------------------------------
  // write_tmx_file

  /**
   * The tilemap entry write_tmx_file prints for cell (x, y) of a map
   * `columns` cells wide.  In 8x16 mode the tilemap keeps the two halves of
   * each column next to each other, so cell rows 2n and 2n + 1 both read
   * from the entries of band n, one taking the even and one the odd ones.
   */
  function TmxIndex(size: TileSize, columns: nat, x: nat, y: nat): nat
  {
    if size.Tile8x8? then y * columns + x else (y / 2) * columns * 2 + y % 2 + 2 * x
  }

  /** Cell (x, y) reads the entry the scan made for half y % PerColumn of column x in band y / PerColumn. */
  lemma TmxIndexIsScanPosition(size: TileSize, columns: nat, x: nat, y: nat)
    ensures TmxIndex(size, columns, x, y) ==
            ScanPosition(size, columns, y / PerColumn(size), x, y % PerColumn(size))
  {
    if size.Tile8x16? {
      var n := y / 2;
      assert 2 * (n * columns + x) + y % 2 == n * columns * 2 + y % 2 + 2 * x;
    }
  }

  /** On a map of an even number of rows, every 8x16 cell reads an entry of a tilemap of `columns * rows` entries. */
  lemma TmxIndexInRange(columns: nat, rows: nat, x: nat, y: nat)
    requires rows % 2 == 0 && x < columns && y < rows
    ensures TmxIndex(Tile8x16, columns, x, y) < columns * rows
  {
    var n := y / 2;
    MulMono(n + 1, rows / 2, columns);
    assert (n + 1) * columns * 2 <= columns * rows;
  }

  /**
   * The global ids write_tmx_file prints into the layer's CSV data, in the
   * order it prints them: in 8x8 mode the tilemap in order, in 8x16 mode
   * row by row of the map, each cell through `TmxIndex`.
   */
  method WriteTmxData(tilemap: seq<MapTile>, tiles: seq<MapTile>, size: TileSize, columns: nat, rows: nat)
    returns (gids: seq<bv32>)
    requires OriginalsStored(tilemap, tiles)
    requires size.Tile8x16? ==> rows % 2 == 0 && |tilemap| == columns * rows
    ensures size.Tile8x8? ==> |gids| == |tilemap|
    ensures size.Tile8x8? ==> forall i | 0 <= i < |tilemap| :: gids[i] == TmxTileId(tilemap[i], tiles)
    ensures size.Tile8x16? ==> |gids| == columns * rows
    ensures size.Tile8x16? ==>
              forall y, x | 0 <= y < rows && 0 <= x < columns ::
                && y * columns + x < |gids|
                && TmxIndex(size, columns, x, y) < |tilemap|
                && gids[y * columns + x] == TmxTileId(tilemap[TmxIndex(size, columns, x, y)], tiles)
  {
    gids := [];
    if size.Tile8x8? {
      var totalTiles := |tilemap|;
      for i := 0 to totalTiles
        invariant |gids| == i
        invariant forall j | 0 <= j < i :: gids[j] == TmxTileId(tilemap[j], tiles)
      {
        gids := gids + [TmxTileId(tilemap[i], tiles)];
      }
    } else {
      for y := 0 to rows
        invariant |gids| == y * columns
        invariant forall n | 0 <= n < |gids| :: TmxCellAt(gids, tilemap, tiles, columns, n)
      {
        var line := TmxRow(tilemap, tiles, columns, rows, y);
        AppendRow(gids, line, tilemap, tiles, columns, y);
        gids := gids + line;
      }
      CellsByRowAndColumn(gids, tilemap, tiles, columns, rows);
    }
  }

  /** The ids read row by row are the cells of a `columns` by `rows` map. */
  lemma CellsByRowAndColumn(gids: seq<bv32>, tilemap: seq<MapTile>, tiles: seq<MapTile>, columns: nat, rows: nat)
    requires OriginalsStored(tilemap, tiles)
    requires |gids| == columns * rows
    requires forall n | 0 <= n < |gids| :: TmxCellAt(gids, tilemap, tiles, columns, n)
    ensures forall y, x | 0 <= y < rows && 0 <= x < columns ::
              && y * columns + x < |gids|
              && TmxIndex(Tile8x16, columns, x, y) < |tilemap|
              && gids[y * columns + x] == TmxTileId(tilemap[TmxIndex(Tile8x16, columns, x, y)], tiles)
  {
    forall y, x | 0 <= y < rows && 0 <= x < columns
      ensures && y * columns + x < |gids|
              && TmxIndex(Tile8x16, columns, x, y) < |tilemap|
              && gids[y * columns + x] == TmxTileId(tilemap[TmxIndex(Tile8x16, columns, x, y)], tiles)
    {
      MulMono(y + 1, rows, columns);
      RowMajorDivMod(y, x, columns);
      assert TmxCellAt(gids, tilemap, tiles, columns, y * columns + x);
    }
  }

  /** Position `n` of the printed ids, read row by row, holds the id of its cell's entry. */
  ghost predicate TmxCellAt(gids: seq<bv32>, tilemap: seq<MapTile>, tiles: seq<MapTile>, columns: nat, n: nat)
    requires OriginalsStored(tilemap, tiles)
  {
    && n < |gids| && columns > 0
    && TmxIndex(Tile8x16, columns, n % columns, n / columns) < |tilemap|
    && gids[n] == TmxTileId(tilemap[TmxIndex(Tile8x16, columns, n % columns, n / columns)], tiles)
  }

  /** Row-major position y * columns + x lies in row y, column x. */
  lemma RowMajorDivMod(y: nat, x: nat, columns: nat)
    requires x < columns
    ensures (y * columns + x) / columns == y && (y * columns + x) % columns == x
  {
    var n := y * columns + x;
    RowMajorUnique(y, x, n / columns, n % columns, columns);
  }

  /** One row of write_tmx_file's 8x16 loop: `i` starts at the row's first entry and steps by two. */
  method TmxRow(tilemap: seq<MapTile>, tiles: seq<MapTile>, columns: nat, rows: nat, y: nat)
    returns (line: seq<bv32>)
    requires OriginalsStored(tilemap, tiles)
    requires rows % 2 == 0 && |tilemap| == columns * rows && y < rows
    ensures |line| == columns
    ensures forall x | 0 <= x < columns ::
              TmxIndex(Tile8x16, columns, x, y) < |tilemap| &&
              line[x] == TmxTileId(tilemap[TmxIndex(Tile8x16, columns, x, y)], tiles)
  {
    line := [];
    var i := (y / 2) * columns * 2 + y % 2;
    for x := 0 to columns
      invariant i == TmxIndex(Tile8x16, columns, x, y)
      invariant |line| == x
      invariant forall x' | 0 <= x' < x ::
                  TmxIndex(Tile8x16, columns, x', y) < |tilemap| &&
                  line[x'] == TmxTileId(tilemap[TmxIndex(Tile8x16, columns, x', y)], tiles)
    {
      TmxIndexInRange(columns, rows, x, y);
      line := line + [TmxTileId(tilemap[i], tiles)];
      i := i + 2;
    }
  }

  /** Appending row `y` to the rows before it keeps those and puts the new one after them. */
  lemma AppendRow(gids: seq<bv32>, line: seq<bv32>, tilemap: seq<MapTile>, tiles: seq<MapTile>, columns: nat, y: nat)
    requires OriginalsStored(tilemap, tiles)
    requires |gids| == y * columns && |line| == columns
    requires forall n | 0 <= n < |gids| :: TmxCellAt(gids, tilemap, tiles, columns, n)
    requires forall x | 0 <= x < columns ::
               TmxIndex(Tile8x16, columns, x, y) < |tilemap| &&
               line[x] == TmxTileId(tilemap[TmxIndex(Tile8x16, columns, x, y)], tiles)
    ensures |gids + line| == (y + 1) * columns
    ensures forall n | 0 <= n < |gids + line| :: TmxCellAt(gids + line, tilemap, tiles, columns, n)
  {
    forall n | 0 <= n < |gids + line|
      ensures TmxCellAt(gids + line, tilemap, tiles, columns, n)
    {
      if n < |gids| {
        assert TmxCellAt(gids, tilemap, tiles, columns, n);
        IndexInPrefix(gids, line, n);
      } else {
        var x := n - |gids|;
        RowMajorDivMod(y, x, columns);
        IndexInSuffix(gids, line, x);
      }
    }
  }

  /**
   * What the TMX map shows: on an image process_file accepts, cell (x, y)
   * of the map reads the tilemap entry the scan made for the 8x8 block whose
   * top left pixel is (8x, 8y), in both tile modes.
   */
  lemma TmxCellShowsBlock(image: DecodedImage, config: Config, x: nat, y: nat)
    requires ImageFits(image, config.tileSize)
    requires x < image.width / TILE_WIDTH && y < image.height / TILE_HEIGHT
    ensures TmxIndex(config.tileSize, image.width / TILE_WIDTH, x, y) < |Build(image, config).tilemap|
    ensures Build(image, config).tilemap[TmxIndex(config.tileSize, image.width / TILE_WIDTH, x, y)].data ==
            Block(image, TILE_WIDTH * x, TILE_HEIGHT * y)
  {
    var size := config.tileSize;
    var k := PerColumn(size);
    var b, h := y / k, y % k;
    TmxIndexIsScanPosition(size, Columns(image), x, y);
    ScanBlockAt(image, size, b, x, h);
    assert BandTop(size, b) + 8 * h == 8 * y;
    BuildOrder(image, config);
  }

  // ---------------------------------------------------------------------
  // convert_colour_channel_to_2bit and the palette writers

  /** A palette entry as libpng hands it over. */
  datatype Colour = Colour(red: bv8, green: bv8, blue: bv8)

  /** An 8-bit channel to the two bits of the Master System palette, at the thresholds 56, 122 and 188. */
  function ConvertColourChannelTo2Bit(c: bv8): (q: bv8)
    ensures q <= 3
  {
    if c < 56 then 0
    else if c < 122 then 1
    else if c < 188 then 2
    else 3
  }

  /** The level a channel maps to is the number of thresholds it reaches. */
  function ThresholdsReached(c: bv8): nat
  {
    (if c >= 56 then 1 else 0) + (if c >= 122 then 1 else 0) + (if c >= 188 then 1 else 0)
  }

  lemma ConvertCountsThresholds(c: bv8)
    ensures ConvertColourChannelTo2Bit(c) as nat == ThresholdsReached(c)
  {
  }

  /** A brighter channel never maps to a darker level, and both extremes are reached. */
  lemma ConvertMonotone(c: bv8, d: bv8)
    requires c <= d
    ensures ConvertColourChannelTo2Bit(c) <= ConvertColourChannelTo2Bit(d)
    ensures ConvertColourChannelTo2Bit(0) == 0 && ConvertColourChannelTo2Bit(255) == 3
  {
  }

  /** write_sms_palette_file: one byte per colour, two bits per channel, red in the low bits. */
  function SmsColour(c: Colour): (b: bv8)
  {
    ConvertColourChannelTo2Bit(c.red)
    | (ConvertColourChannelTo2Bit(c.green) << 2)
    | (ConvertColourChannelTo2Bit(c.blue) << 4)
  }

  lemma SmsColourDecodes(c: Colour)
    ensures SmsColour(c) & 3 == ConvertColourChannelTo2Bit(c.red)
    ensures (SmsColour(c) >> 2) & 3 == ConvertColourChannelTo2Bit(c.green)
    ensures (SmsColour(c) >> 4) & 3 == ConvertColourChannelTo2Bit(c.blue)
    ensures SmsColour(c) < 0x40
  {
    var r, g, b := ConvertColourChannelTo2Bit(c.red), ConvertColourChannelTo2Bit(c.green), ConvertColourChannelTo2Bit(c.blue);
    assert r <= 3 && g <= 3 && b <= 3;
  }

  /** write_gg_palette_file: one word per colour, the top nibble of each channel, red in the low nibble. */
  function GgColour(c: Colour): (w: bv16)
  {
    ((c.red as bv16) >> 4) | (((c.green >> 4) as bv16) << 4) | (((c.blue >> 4) as bv16) << 8)
  }

  lemma GgColourDecodes(c: Colour)
    ensures GgColour(c) & 0xF == (c.red >> 4) as bv16
    ensures (GgColour(c) >> 4) & 0xF == (c.green >> 4) as bv16
    ensures (GgColour(c) >> 8) & 0xF == (c.blue >> 4) as bv16
    ensures GgColour(c) < 0x1000
  {
  }

  /**
   * write_gen_palette_file: one word per colour, the top three bits of each
   * channel placed in bits 1-3 of its nibble, red in the low nibble.
   */
  function GenColour(c: Colour): (w: bv16)
  {
    (((c.red >> 4) & 0xE) as bv16)
    | ((((c.green >> 4) & 0xE) as bv16) << 4)
    | ((((c.blue >> 4) & 0xE) as bv16) << 8)
  }

  lemma GenColourDecodes(c: Colour)
    ensures GenColour(c) & 0xF == ((c.red >> 5) << 1) as bv16
    ensures (GenColour(c) >> 4) & 0xF == ((c.green >> 5) << 1) as bv16
    ensures (GenColour(c) >> 8) & 0xF == ((c.blue >> 5) << 1) as bv16
    ensures GenColour(c) & 0xF111 == 0
  {
  }

  // ---------------------------------------------------------------------
  // write_tiles

  datatype TileFormat = Planar | Chunky

  /** Bit `p` of the first `n` pixels of row `y`, leftmost pixel in the top bit. */
  function PlanarBits(data: seq<Pixel>, y: nat, p: nat, n: nat): bv8
    requires |data| == NUM_PIXELS_IN_TILE && y < TILE_HEIGHT && p < 4 && n <= TILE_WIDTH
  {
    if n == 0 then 0
    else PlanarBits(data, y, p, n - 1) | (((data[PixelIndex(n - 1, y)] >> p) & 1) << (7 - (n - 1)))
  }

  /** Bit plane `p` of row `y`: one byte, bit 7 - x holding bit `p` of pixel (x, y). */
  function PlanarByte(data: seq<Pixel>, y: nat, p: nat): bv8
    requires |data| == NUM_PIXELS_IN_TILE && y < TILE_HEIGHT && p < 4
  {
    PlanarBits(data, y, p, TILE_WIDTH)
  }

  lemma {:induction false} PlanarBitsHold(data: seq<Pixel>, y: nat, p: nat, n: nat, x: nat)
    requires |data| == NUM_PIXELS_IN_TILE && y < TILE_HEIGHT && p < 4 && n <= TILE_WIDTH && x < TILE_WIDTH
    ensures (PlanarBits(data, y, p, n) >> (7 - x)) & 1 ==
            if x < n then (data[PixelIndex(x, y)] >> p) & 1 else 0
  {
    if n > 0 {
      PlanarBitsHold(data, y, p, n - 1, x);
      var rest, bit := PlanarBits(data, y, p, n - 1), (data[PixelIndex(n - 1, y)] >> p) & 1;
      OrBit(rest, bit, n - 1, x);
    }
  }

  /** Bit 7 - x of `rest | bit << (7 - k)` is bit 7 - x of `rest`, or `bit` where x is k. */
  lemma OrBit(rest: bv8, bit: bv8, k: nat, x: nat)
    requires bit <= 1 && k < 8 && x < 8
    ensures ((rest | (bit << (7 - k))) >> (7 - x)) & 1 ==
            if x == k then ((rest >> (7 - x)) & 1) | bit else (rest >> (7 - x)) & 1
  {
  }

  /** Bit 7 - x of plane byte (y, p) is bit p of pixel (x, y). */
  lemma PlanarByteBits(data: seq<Pixel>, y: nat, p: nat, x: nat)
    requires |data| == NUM_PIXELS_IN_TILE && y < TILE_HEIGHT && p < 4 && x < TILE_WIDTH
    ensures (PlanarByte(data, y, p) >> (7 - x)) & 1 == (data[PixelIndex(x, y)] >> p) & 1
  {
    PlanarBitsHold(data, y, p, TILE_WIDTH, x);
  }

  /** The four plane bytes of row `y`. */
  function PlanarRow(data: seq<Pixel>, y: nat): (r: seq<bv8>)
    requires |data| == NUM_PIXELS_IN_TILE && y < TILE_HEIGHT
    ensures |r| == 4
  {
    [PlanarByte(data, y, 0), PlanarByte(data, y, 1), PlanarByte(data, y, 2), PlanarByte(data, y, 3)]
  }

  /** The plane bytes of the first `n` rows, row by row. */
  function PlanarRows(data: seq<Pixel>, n: nat): (r: seq<bv8>)
    requires |data| == NUM_PIXELS_IN_TILE && n <= TILE_HEIGHT
    ensures |r| == 4 * n
  {
    if n == 0 then [] else PlanarRows(data, n - 1) + PlanarRow(data, n - 1)
  }

  /** The 32 bytes of a tile in planar format. */
  function PlanarBytes(data: seq<Pixel>): (r: seq<bv8>)
    requires |data| == NUM_PIXELS_IN_TILE
    ensures |r| == 32
  {
    PlanarRows(data, TILE_HEIGHT)
  }

  lemma {:induction false} PlanarRowsIndex(data: seq<Pixel>, n: nat)
    requires |data| == NUM_PIXELS_IN_TILE && n <= TILE_HEIGHT
    ensures forall y, p | 0 <= y < n && 0 <= p < 4 :: PlanarRows(data, n)[4 * y + p] == PlanarByte(data, y, p)
  {
    if n > 0 {
      PlanarRowsIndex(data, n - 1);
    }
  }

  /** Pixel (x, y) as a reader of planar bytes puts it back together from its four planes. */
  function PlanarPixel(bytes: seq<bv8>, x: nat, y: nat): bv8
    requires |bytes| == 32 && x < TILE_WIDTH && y < TILE_HEIGHT
  {
    ((bytes[4 * y] >> (7 - x)) & 1)
    | (((bytes[4 * y + 1] >> (7 - x)) & 1) << 1)
    | (((bytes[4 * y + 2] >> (7 - x)) & 1) << 2)
    | (((bytes[4 * y + 3] >> (7 - x)) & 1) << 3)
  }

  /** Planar bytes keep the low four bits of every pixel, and nothing else. */
  lemma PlanarRoundTrip(data: seq<Pixel>, x: nat, y: nat)
    requires |data| == NUM_PIXELS_IN_TILE && x < TILE_WIDTH && y < TILE_HEIGHT
    ensures PlanarPixel(PlanarBytes(data), x, y) == data[PixelIndex(x, y)] & 0xF
  {
    PlanarRowsIndex(data, TILE_HEIGHT);
    PlanarByteBits(data, y, 0, x);
    PlanarByteBits(data, y, 1, x);
    PlanarByteBits(data, y, 2, x);
    PlanarByteBits(data, y, 3, x);
    NibbleFromBits(data[PixelIndex(x, y)]);
  }

  lemma NibbleFromBits(d: bv8)
    ensures (d & 1) | (((d >> 1) & 1) << 1) | (((d >> 2) & 1) << 2) | (((d >> 3) & 1) << 3) == d & 0xF
  {
  }

  /** The bit-plane loops of write_tiles for one tile. */
  method PackPlanar(data: seq<Pixel>) returns (bytes: seq<bv8>)
    requires |data| == NUM_PIXELS_IN_TILE
    ensures bytes == PlanarBytes(data)
  {
    bytes := [];
    for y := 0 to TILE_HEIGHT
      invariant bytes == PlanarRows(data, y)
    {
      for p := 0 to 4
        invariant bytes == PlanarRows(data, y) + PlanarRow(data, y)[..p]
      {
        var byte: bv8 := 0;
        for x := 0 to TILE_WIDTH
          invariant byte == PlanarBits(data, y, p, x)
        {
          var pixel := data[y * TILE_WIDTH + x];
          byte := byte | (((pixel >> p) & 1) << (7 - x));
        }
        assert PlanarRow(data, y)[..p + 1] == PlanarRow(data, y)[..p] + [byte];
        bytes := bytes + [byte];
      }
      assert PlanarRow(data, y)[..4] == PlanarRow(data, y);
    }
  }

  /** One chunky byte: the low nibbles of two neighbouring pixels, the left one on top. */
  function ChunkyByte(left: Pixel, right: Pixel): (b: bv8)
    ensures b >> 4 == left & 0xF && b & 0xF == right & 0xF
  {
    (right & 0xF) | ((left & 0xF) << 4)
  }

  /** The 32 bytes of a tile in chunky format, two pixels per byte. */
  function ChunkyBytes(data: seq<Pixel>): (r: seq<bv8>)
    requires |data| == NUM_PIXELS_IN_TILE
    ensures |r| == 32
  {
    seq(32, k requires 0 <= k < 32 => ChunkyByte(data[2 * k], data[2 * k + 1]))
  }

  /** Pixel `j` as a reader of chunky bytes takes it back out. */
  function ChunkyPixel(bytes: seq<bv8>, j: nat): bv8
    requires |bytes| == 32 && j < NUM_PIXELS_IN_TILE
  {
    if j % 2 == 0 then bytes[j / 2] >> 4 else bytes[j / 2] & 0xF
  }

  /** Chunky bytes keep the low four bits of every pixel, and nothing else. */
  lemma ChunkyRoundTrip(data: seq<Pixel>, j: nat)
    requires |data| == NUM_PIXELS_IN_TILE && j < NUM_PIXELS_IN_TILE
    ensures ChunkyPixel(ChunkyBytes(data), j) == data[j] & 0xF
  {
    var k := j / 2;
    assert j == 2 * k || j == 2 * k + 1;
  }

  /** The nibble-packing loop of write_tiles for one tile. */
  method PackChunky(data: seq<Pixel>) returns (bytes: seq<bv8>)
    requires |data| == NUM_PIXELS_IN_TILE
    ensures bytes == ChunkyBytes(data)
  {
    bytes := [];
    var j := 0;
    while j < NUM_PIXELS_IN_TILE
      invariant j % 2 == 0 && j <= NUM_PIXELS_IN_TILE && |bytes| == j / 2
      invariant forall k | 0 <= k < j / 2 :: bytes[k] == ChunkyByte(data[2 * k], data[2 * k + 1])
    {
      var outbyte := (data[j + 1] & 0xF) | ((data[j] & 0xF) << 4);
      bytes := bytes + [outbyte];
      j := j + 2;
    }
  }

  function TileBytes(format: TileFormat, data: seq<Pixel>): (r: seq<bv8>)
    requires |data| == NUM_PIXELS_IN_TILE
    ensures |r| == 32
  {
    if format == Planar then PlanarBytes(data) else ChunkyBytes(data)
  }

  /** The bytes write_tiles collects for the whole store: each tile's 32 bytes, in store order. */
  function TilesBytes(tiles: seq<MapTile>, format: TileFormat): (r: seq<bv8>)
    requires AllSized(tiles)
    ensures |r| == 32 * |tiles|
    decreases |tiles|
  {
    if tiles == [] then []
    else
      var n := |tiles| - 1;
      TilesBytes(tiles[..n], format) + TileBytes(format, tiles[n].data)
  }

  /** Tile `i` of the store owns bytes 32 i to 32 i + 31 of the output. */
  lemma {:induction false} TilesBytesSlice(tiles: seq<MapTile>, format: TileFormat, i: nat)
    requires AllSized(tiles) && i < |tiles|
    ensures TilesBytes(tiles, format)[32 * i .. 32 * i + 32] == TileBytes(format, tiles[i].data)
    decreases |tiles|
  {
    var n := |tiles| - 1;
    var prefix, last := TilesBytes(tiles[..n], format), TileBytes(format, tiles[n].data);
    assert TilesBytes(tiles, format) == prefix + last;
    if i < n {
      TilesBytesSlice(tiles[..n], format, i);
      assert tiles[..n][i] == tiles[i];
      SliceInPrefix(prefix, last, 32 * i, 32 * i + 32);
    } else {
      SliceInSuffix(prefix, last);
    }
  }

  lemma SliceInPrefix<T>(a: seq<T>, b: seq<T>, lo: nat, hi: nat)
    requires lo <= hi <= |a|
    ensures (a + b)[lo..hi] == a[lo..hi]
  {
  }

  lemma SliceInSuffix<T>(a: seq<T>, b: seq<T>)
    ensures (a + b)[|a|..|a| + |b|] == b
  {
  }

  /** write_tiles: every stored tile, in store order, packed in the chosen format. */
  method WriteTiles(tiles: seq<MapTile>, format: TileFormat) returns (outbuf: seq<bv8>)
    requires AllSized(tiles)
    ensures outbuf == TilesBytes(tiles, format)
  {
    outbuf := [];
    var size := |tiles|;
    for i := 0 to size
      invariant outbuf == TilesBytes(tiles[..i], format)
    {
      var bytes;
      if format == Planar {
        bytes := PackPlanar(tiles[i].data);
      } else {
        bytes := PackChunky(tiles[i].data);
      }
      assert tiles[..i + 1][..i] == tiles[..i];
      outbuf := outbuf + bytes;
    }
    assert tiles[..size] == tiles;
  }
}
