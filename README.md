# png2tile core in Dafny

png2tile turns an indexed-colour PNG into Sega Master System / Game Gear /
Mega Drive tile data. The image is cut into 8x8 blocks. Blocks that repeat
are folded onto one stored tile. With mirroring on, a block that is an X, Y
or 180 degree flip of a stored tile is folded too. The program then writes:

- the tile bytes, planar or chunky;
- a tilemap of 16-bit words, or a TMX layer of global tile ids;
- the palette.

The STM ("ShrunkTileMap") compressor packs a tilemap into a byte stream of
run records and HI announcements.

This project models that core:

- `tile_geometry.dfy` (`TileGeometry`) is the 8x8 pixel layout. The X, Y and
  180 degree flips are functions on the 64-pixel sequence. The nested copy
  loops and the pixel-comparison loop shared by tile.cpp and main.cpp are
  methods proved against those functions.
- `tile.dfy` (`TileClass`) is the `Tile` class of tile.h / tile.cpp.
  - It is a Dafny class with an `array` pixel buffer.
  - `flipX`/`flipY`/`flipXY` allocate a new tile and fill it.
  - `isDataEqual` is the counting loop.
- `tilemap.dfy` (`TileMap`) holds main.cpp's tile helpers and the tiling
  loops of `process_file`:
  - `find_duplicate`, `new_tile`, `tile_flip_*` and `createTile`;
  - `add_new_tile` on a `TileStore` class;
  - the 8x8 and 8x16 scans;
  - the rule that 8x16 mode turns duplicate removal off.

  A main.cpp `Tile` never changes once it is pushed. So it is a value
  (`MapTile`), and its `original_tile` pointer is the original's position in
  the store. The scan is specified by `Build`, which registers the blocks in
  scan order. The main facts are:
  - every tilemap entry resolves to a stored tile turned by its flip flags;
  - with duplicate removal, no stored tile repeats another in any
    orientation that is checked;
  - without it, the store is the tilemap.
- `emit.dfy` (`Emit`) holds the values the writers compute:
  - the tilemap word of `write_tilemap_file`;
  - the TMX id of `get_tmx_tile_id` and the cell order of `write_tmx_file`;
  - planar and chunky tile bytes;
  - the 2-bit colour quantiser;
  - the SMS, GG and Mega Drive palette words.

  Each of these has a decoding lemma that gets the fields back.
- `stm.dfy` (`Stm`) is compressors/gfxcomp_stm.c.
  - The stream is specified by functions: `RunLength`, `StepAt`, `Encode`
    and `Compressed`.
  - The compressor is the class `StmCompressor`. Its fields are the C
    globals: the input, the output buffer and its size, the write position,
    `current`, `cur_HH` and the change flag.
  - Every method is proved to write exactly the specified stream. When the
    stream does not fit, it writes the specified prefix and fails.
- `stm_decode.dfy` (`StmDecode`) is a reference decoder written for this
  model; it is not in the source. It proves that the compressed stream
  decodes back to the width byte and the input words.

Words, bytes and 32-bit sizes are subset types of `int`. Bit operations on
tilemap words, TMX ids and pixels use `bv16`, `bv32` and `bv8`. The C
truncations are written out: `uint16_t` tile ids wrap at `0x1_0000` and
`width*height` wraps at 2^32 (`Stm.InSize`).

## Model

| member | source | states |
|---|---|---|
| TileGeometry.FlipXPixels | tile.cpp:39-43 | pixel (x, y) of the X flip is pixel (7 - x, y) of the tile |
| TileGeometry.FlipYPixels | tile.cpp:51-55 | pixel (x, y) of the Y flip is pixel (x, 7 - y) of the tile |
| TileGeometry.FlipXInvolution | tile.cpp:36-46 | flipping in X twice gives the tile back |
| TileGeometry.FlipYInvolution | tile.cpp:48-58 | flipping in Y twice gives the tile back |
| TileGeometry.FlipsCommute | tile.cpp:60-66 | an X flip then a Y flip equals a Y flip then an X flip |
| TileGeometry.FlipXYReverses | tile.cpp:60-66 | the 180 degree turn reverses the 64 pixels |
| TileGeometry.FlipXYInvolution | tile.cpp:60-66 | turning twice by 180 degrees gives the tile back |
| TileGeometry.OrientUndo | main.cpp:814-843 | if a block turned by the match's flags equals the stored tile, the stored tile turned by the same flags is the block |
| TileGeometry.FlipXInto | tile.cpp:39-43 | the nested copy loop fills the destination with exactly the X flip of the source |
| TileGeometry.FlipYInto | tile.cpp:51-55 | the column-major copy loop fills the destination with exactly the Y flip of the source |
| TileGeometry.SameData | tile.cpp:68-79 | the counting loop answers true exactly when all 64 pixels are equal |
| TileClass.Tile.constructor | tile.cpp:27-34 | every field takes its argument, and the tile gets its own 64-pixel buffer |
| TileClass.Tile.FlipX | tile.cpp:36-46 | a fresh tile holds the X flip, is marked flipped in X, keeps id, Y flag, duplicate flag and original, and the receiver is unchanged |
| TileClass.Tile.FlipY | tile.cpp:48-58 | a fresh tile holds the Y flip, is marked flipped in Y, and keeps the other metadata |
| TileClass.Tile.FlipXY | tile.cpp:60-66 | a fresh tile holds the 180 degree turn (pixel k is pixel 63 - k) with both flags set, and keeps id, duplicate flag and original |
| TileClass.Tile.IsDataEqual | tile.cpp:68-79 | true exactly when both pixel buffers hold the same 64 pixels |
| TileClass.FlipXTwiceRestores | tile.cpp:36-46 | flipping a tile in X twice restores its pixels, id, Y flag, duplicate flag and original |
| TileMap.BlockPixels | main.cpp:806-812 | pixel (c, r) of the copied block is image pixel (x + c, y + r) |
| TileMap.FirstMatchFrom | main.cpp:739-750 | the search result holds the block's pixels and no earlier candidate does; no result means no tile from the start position matches |
| TileMap.FirstMatchIsLowest | main.cpp:736-753 | the duplicate found is the lowest store position holding the block |
| TileMap.FindDuplicate | main.cpp:736-753 | the nested loops return the first stored tile with the same 64 pixels, or nothing |
| TileMap.NewTile | main.cpp:755-769 | the new tile has 64 pixels, the id truncated to 16 bits, and the given flags and original |
| TileMap.TileFlipX | main.cpp:771-781 | the copy holds the X flip, is marked flipped in X, and keeps the rest |
| TileMap.TileFlipY | main.cpp:783-793 | the copy holds the Y flip, is marked flipped in Y, and keeps the rest |
| TileMap.TileFlipXY | main.cpp:795-801 | the copy holds the 180 degree turn with both flags set |
| TileMap.CreateTileDecision | main.cpp:814-844 | a tile is a duplicate exactly when it names an original, which is the first stored tile equal to the block turned by the tile's flags; orientations are tried as exact, X, Y, then both, and only with mirroring on |
| TileMap.CreateTileResolves | main.cpp:814-843 | a duplicate's block is its original's pixels turned by the duplicate's flip flags |
| TileMap.CreateTileNew | main.cpp:819-844 | a block declared new equals no stored tile, and with mirroring none of their X, Y or 180 degree flips |
| TileMap.CreateTile | main.cpp:803-847 | the method copies the block out of the image and returns the tile the search order decides |
| TileMap.TileStore.constructor | main.cpp:876 | the store starts empty |
| TileMap.TileStore.AddNewTile | main.cpp:849-852 | the tile gets the store's size, truncated to 16 bits, as its id and is appended; earlier tiles are unchanged |
| TileMap.Register | main.cpp:881-886 | one block adds one tilemap entry holding its pixels; the tile is stored with the next id unless it is a duplicate and duplicates are removed |
| TileMap.RegisterBlock | main.cpp:881-886 | the store and tilemap after one block are those `Register` specifies |
| TileMap.RegisterAllTilemap | main.cpp:878-907 | registering blocks keeps earlier entries and adds one entry per block, in order, holding that block's pixels |
| TileMap.ColumnBlocks | main.cpp:879-905 | an 8x8 column visit copies one block; an 8x16 visit copies the block and the one 8 rows below it |
| TileMap.BlocksAtLength | main.cpp:878-907 | after a given band and column, the scan has visited that many blocks, times two in 8x16 mode |
| TileMap.BlocksAtBlock | main.cpp:878-907 | the scan position of band b, column c, half h holds that block of the image |
| TileMap.ScanBlockAt | main.cpp:878-907 | the scan lists, at each block's scan position, the image block at that band, column and half |
| TileMap.BuildTilemap | main.cpp:860-907 | the method rejects an image that is not a whole number of tiles (8 rows, or 16 in 8x16 mode), and otherwise returns the store and tilemap of `Build` |
| TileMap.ScanBand | main.cpp:880-905 | the column loop of one band registers that band's blocks |
| TileMap.ScanColumn | main.cpp:881-904 | one column visit registers one block, or two in 8x16 mode |
| TileMap.ColumnStep8x8 | main.cpp:880-887 | in 8x8 mode a column visit registers the block at (8 * col, 8 * band) |
| TileMap.ColumnStep8x16 | main.cpp:891-904 | in 8x16 mode a column visit registers the upper block, then the lower one |
| TileMap.NextBand | main.cpp:879-880 | once x passes the width, the column loop has visited every column and the next band starts |
| TileMap.RegisterResolves | main.cpp:814-886 | after a block is registered, every tilemap entry still resolves to a stored tile turned by its flags |
| TileMap.RegisterNoDuplicates | main.cpp:819-884 | with duplicate removal, registering keeps the store free of repeats, and with mirroring free of flipped repeats |
| TileMap.RegisterKeepsInvariant | main.cpp:878-907 | registration keeps the store invariant: ids are positions, entries resolve, no repeats under removal, store is the tilemap without removal |
| TileMap.RegisterAllKeepsInvariant | main.cpp:878-907 | registering a sequence of blocks keeps the store invariant |
| TileMap.BuildInvariant | main.cpp:875-907 | the store and tilemap built from an image satisfy the store invariant |
| TileMap.Settle | main.cpp:417-420 | duplicate removal survives only in 8x8 mode; tile size and mirroring are unchanged |
| TileMap.Settled8x16StoresEveryBlock | main.cpp:417-420 | in 8x16 mode the store built from an image is the tilemap itself |
| TileMap.BuildOrder | main.cpp:878-907 | tilemap entry i holds the pixels of the i-th block in scan order |
| Emit.ResolvedId | main.cpp:695 | a duplicate's id is its original's id, and any other tile's id is its own |
| Emit.ResolvedIdNamesStoredTile | main.cpp:693-695 | the resolved id of every tilemap entry is the id of a stored tile that holds the entry's pixels up to its flips |
| Emit.TilemapWordDecodes | main.cpp:695-711 | the tilemap word carries the 9-bit tile number plus offset, the H and V flip bits, the sprite-palette and in-front bits, and nothing above bit 12 |
| Emit.EntryWord | main.cpp:695-711 | the method computes the tilemap word of one entry |
| Emit.WriteTilemap | main.cpp:691-721 | one word per tilemap entry, in tilemap order |
| Emit.TmxTileId | main.cpp:598-611 | the TMX id is the resolved id plus one in the low 30 bits, bit 31 set exactly for an X flip, bit 30 exactly for a Y flip, and never 0 |
| Emit.TmxGid | main.cpp:602-608 | the flag bits are separate from the id and can be read back |
| Emit.TmxFlagBits | main.cpp:602-608 | OR-ing the flip flags onto an id below 2^30 keeps the id in the low bits, with each flag readable |
| Emit.IdBelowFlags | main.cpp:601-602 | a 16-bit id plus one never reaches the TMX flag bits and is never 0 |
| Emit.TmxIndexIsScanPosition | main.cpp:642-659 | layer cell (x, y) reads the entry the scan made for column x, band y / 2 and half y % 2 in 8x16 mode, or band y in 8x8 mode |
| Emit.TmxIndexInRange | main.cpp:657-659 | that index lies inside a tilemap of columns times rows entries |
| Emit.WriteTmxData | main.cpp:640-672 | in 8x8 mode the layer lists the ids in tilemap order; in 8x16 mode cell (x, y) holds the id of the entry at the 8x16 scan position |
| Emit.TmxRow | main.cpp:657-668 | one layer row lists, for each column, the id of the entry at that row's 8x16 scan position |
| Emit.CellsByRowAndColumn | main.cpp:657-668 | cell y * columns + x of the layer holds the id for row y, column x |
| Emit.TmxCellShowsBlock | main.cpp:642-668 | the layer cell for tile row y, column x shows the image block at (8x, 8y), in both tile sizes |
| Emit.ConvertColourChannelTo2Bit | main.cpp:507-512 | a channel level is at most 3 |
| Emit.ConvertCountsThresholds | main.cpp:507-512 | the level is the number of thresholds 56, 122, 188 the channel reaches |
| Emit.ConvertMonotone | main.cpp:507-512 | a brighter channel never gets a lower level; 0 gives 0 and 255 gives 3 |
| Emit.SmsColourDecodes | main.cpp:521-523 | the SMS colour byte holds the red, green and blue levels in bits 0-1, 2-3 and 4-5 |
| Emit.GgColourDecodes | main.cpp:544-546 | the GG colour word holds the top nibbles of red, green and blue in nibbles 0, 1 and 2 |
| Emit.GenColourDecodes | main.cpp:566-568 | the Mega Drive colour word holds each channel's top three bits in bits 1-3 of its nibble, with bit 0 and the top nibble clear |
| Emit.PlanarByteBits | main.cpp:476-480 | bit 7 - x of plane p's byte of row y is bit p of pixel (x, y) |
| Emit.PlanarRoundTrip | main.cpp:473-487 | reading the four plane bits of a pixel back from the 32 planar bytes gives the pixel's low nibble |
| Emit.PackPlanar | main.cpp:473-487 | the row, plane and column loops produce the planar bytes, four per row |
| Emit.ChunkyByte | main.cpp:490 | the high nibble is the left pixel's low nibble, and the low nibble is the right pixel's |
| Emit.ChunkyRoundTrip | main.cpp:488-497 | pixel j read back from the 32 chunky bytes is its low nibble |
| Emit.PackChunky | main.cpp:488-497 | the pair loop produces the chunky bytes |
| Emit.TilesBytesSlice | main.cpp:464-499 | bytes 32i to 32i + 31 of the output are tile i's bytes |
| Emit.WriteTiles | main.cpp:455-505 | the output is every stored tile's 32 bytes, in store order, in the chosen format |
| Stm.EqualRunFrom | compressors/gfxcomp_stm.c:121-124 | the count stays within the cap of 65 and the input; every counted word equals the first; counting stops at the cap, the end, or the first different word |
| Stm.SuccessiveRunFrom | compressors/gfxcomp_stm.c:136-139 | every counted word is one more than the one before; counting stops at the cap, the end, or the first break |
| Stm.RawRunFromSpec | compressors/gfxcomp_stm.c:151-156 | a raw run has at least one word; no two neighbours in it are equal or successive or change high byte; it stops at 63, the end, before an equal or successive pair, or after a high-byte change |
| Stm.RunLength | compressors/gfxcomp_stm.c:118-156 | a run is 1 to 63 words when raw and 2 to 65 words when equal or successive, and never passes the end |
| Stm.RleHeaderFields | compressors/gfxcomp_stm.c:29-32 | an RLE header holds length - 2 above the two type bits and is never 0 |
| Stm.RawHeaderFields | compressors/gfxcomp_stm.c:161 | a raw header is 4 times the length, with type bits 0, and is never 0 |
| Stm.AnnouncementMarked | compressors/gfxcomp_stm.c:46-49 | a HI announcement has low bits 10, which tells it apart from every record header |
| Stm.AnnouncesExactlyOnChange | compressors/gfxcomp_stm.c:115-116 | a step starts with an announcement exactly when the run's high byte differs from HH |
| Stm.LowBytes | compressors/gfxcomp_stm.c:168-174 | a raw record carries the low byte of each word of the run, in order |
| Stm.TemporaryAsWritten | compressors/gfxcomp_stm.c:63-72 | the shipped end-of-data test agrees with the corrected one whenever the run is not the last |
| Stm.TemporaryAsWrittenReadsPastEnd | compressors/gfxcomp_stm.c:63-65 | on [0x0100] the shipped test makes the announcement 0x0E or 0x0A depending on the word past the input, where the corrected one is permanent |
| Stm.StepAt | compressors/gfxcomp_stm.c:112-178 | one step consumes one run and ends inside the input |
| Stm.StepParts | compressors/gfxcomp_stm.c:115-178 | a step's bytes are the optional announcement followed by the record, and it ends at the run's end with HH updated as checkHI leaves it |
| Stm.LowPageHasNoAnnouncements | compressors/gfxcomp_stm.c:101-116 | when every word's high byte is 0, the stream is the records alone, with no announcements |
| Stm.Compressed | compressors/gfxcomp_stm.c:107-188 | the stream starts with the width's low byte and ends with 0; an empty map is those two bytes |
| Stm.StmCompressor.constructor | compressors/gfxcomp_stm.c:96-104 | the compressor starts at word 0 and write position 0, with HH 0 and no pending change |
| Stm.StmCompressor.Put | compressors/gfxcomp_stm.c:163-166 | a byte is written when there is room, and the call fails otherwise |
| Stm.StmCompressor.WriteRLE | compressors/gfxcomp_stm.c:29-44 | writes the RLE header and the value, failing at the first byte that does not fit |
| Stm.StmCompressor.WriteHI | compressors/gfxcomp_stm.c:46-57 | writes the announcement: high byte shifted by 3, bit 2 for temporary, bits 1-0 = 10 |
| Stm.StmCompressor.CheckHI | compressors/gfxcomp_stm.c:59-81 | with a change pending, writes the announcement, temporary exactly when the word after the run returns to the old HH; a permanent announcement moves HH to the run's high part; the flag clears |
| Stm.StmCompressor.CountEqualRun | compressors/gfxcomp_stm.c:121-124 | the loop counts the equal run |
| Stm.StmCompressor.CountSuccessiveRun | compressors/gfxcomp_stm.c:136-139 | the loop counts the successive run |
| Stm.StmCompressor.CountRawRun | compressors/gfxcomp_stm.c:151-156 | the loop, with its step-back on an equal or successive pair, counts the raw run |
| Stm.StmCompressor.EqualRecord | compressors/gfxcomp_stm.c:118-130 | writes the step's bytes for an equal run and consumes the run |
| Stm.StmCompressor.SuccessiveRecord | compressors/gfxcomp_stm.c:133-147 | sets HH to the last word's high part, then writes the step's bytes for a successive run |
| Stm.StmCompressor.RawRecord | compressors/gfxcomp_stm.c:149-175 | writes the step's bytes for a raw run |
| Stm.StmCompressor.WriteRaw | compressors/gfxcomp_stm.c:161-174 | writes the raw header and then the low bytes |
| Stm.StmCompressor.WriteLowBytes | compressors/gfxcomp_stm.c:168-174 | the byte loop writes the low bytes of the run |
| Stm.StmCompressor.Record | compressors/gfxcomp_stm.c:118-176 | the three-way test picks the run kind, and the record written is the step's |
| Stm.StmCompressor.Step | compressors/gfxcomp_stm.c:114-178 | one loop iteration writes the step's bytes and advances `current` and HH to the step's end |
| Stm.StmCompressor.WriteRecords | compressors/gfxcomp_stm.c:112-180 | the main loop writes the whole record stream from the current word |
| Stm.StmCompressor.Run | compressors/gfxcomp_stm.c:107-188 | writes the width byte, the records and the terminator, and returns the stream length, or 0 once a byte does not fit |
| Stm.CompressTilemap | compressors/gfxcomp_stm.c:91-189 | returns the stream length when it fits in destLen, and 0 otherwise; the buffer holds the stream, or the part of it that fit; nothing past destLen changes |
| StmDecode.DecompressCompressed | compressors/gfxcomp_stm.c:91-189 | decoding the compressed stream gives back the width byte and every word, for words below 0x2000 |
| StmDecode.DecodeEncode | compressors/gfxcomp_stm.c:112-188 | the records written from any position, plus the terminator, decode to the rest of the words |
| StmDecode.StepDecodes | compressors/gfxcomp_stm.c:114-178 | one step's bytes decode to exactly the run's words, with HH as the compressor leaves it |
| StmDecode.AnnouncementFields | compressors/gfxcomp_stm.c:46-49 | an announcement gives back its high byte and its temporary bit |
| StmDecode.AnnouncedDecodes | compressors/gfxcomp_stm.c:59-81 | a temporary announcement applies to its record only, and a permanent one sets HH to the announced high part |
| StmDecode.RecordDecodes | compressors/gfxcomp_stm.c:118-174 | every record starts with a non-zero, non-announcement byte and decodes to its run's words |
| StmDecode.EqualDecodes | compressors/gfxcomp_stm.c:118-130 | an equal record decodes to its count of copies of the first word |
| StmDecode.SuccessiveDecodes | compressors/gfxcomp_stm.c:133-147 | a successive record decodes to the ascending run, and HH becomes the last word's high part |
| StmDecode.SuccessiveValues | compressors/gfxcomp_stm.c:136-139 | word k of a successive run is the first word plus k |
| StmDecode.RawDecodes | compressors/gfxcomp_stm.c:149-174 | a raw record decodes to its words, from the run's high byte and the stored low bytes |
| StmDecode.RawSameHigh | compressors/gfxcomp_stm.c:155 | every word of a raw run has the first word's high byte |

## Left out

- PNG reading and writing (`read_png_file`, `write_png_file`,
  `write_tiles_to_png_image`) are libpng I/O. The model takes a decoded
  image: a sequence of rows of width pixels, which is how `read_png_file`
  lays out the pixels with the stride equal to the width.
- Command-line parsing is left out, except the 8x16 duplicate-removal rule at
  main.cpp:417-420 (`TileMap.Settle`). The model takes the options it uses as
  a `Config` or `WordOptions` value.
- Text and XML formatting, `.db` listings and file streams are left out. The
  model computes the bytes, words and ids that are written, in the order they
  are written.
- `write_sms_cl123` (main.cpp:580-596) only prints text. Its levels are
  `Emit.ConvertColourChannelTo2Bit`.
- The palette writers read all 16 palette entries, including any past the
  PNG's palette size. The model takes a `Colour` value per entry and does not
  model the contents of entries that are not set.
- `STM_getName` / `STM_getExt` return constant strings.
- Memory management (`new`, `delete`, `malloc`, leaks) is left out. Tiles
  are values in `TileMap`; in `TileClass` the intermediate tile of `flipXY`
  is simply dropped.
- TileMap.NewTile: `new_tile` leaves the `malloc`'d pixel buffer
  uninitialised. The model zeroes it, and `createTile` overwrites every
  pixel.
- Stm.CompressTilemap: the C code reinterprets the `uint8_t *` source as
  host-endian 16-bit words. The model takes the sequence of words directly.
  It also does not model the conversion of `writepos` to `int`, which is
  exact for any output of fewer than 2^31 bytes.
- Stm.StmCompressor.CheckHI: the shipped end-of-data test reads one word past
  the input (see Findings). The compressor is modelled with the corrected
  test. `Stm.TemporaryAsWritten` keeps the shipped test, with the word past
  the end as a parameter.
- StmDecode.DecompressCompressed: `writeHI` (compressors/gfxcomp_stm.c:47)
  shifts the announced high byte left by 3 in an 8-bit value, so an
  announced high byte of 0x20 or more loses its top three bits. The round
  trip is stated for words below 0x2000: every 9-bit tile number with the
  flip, palette and priority bits 9-12. A word of 0x2000 or more whose high
  byte is never announced (one inside a successive run, say) can still decode
  back; the model does not characterise those inputs.
- TileMap.BuildTilemap: for an image whose width is not a multiple of 8, or
  whose height is not a multiple of 8 (16 in 8x16 mode), `process_file`
  prints a message and calls `exit(1)` (main.cpp:860-873). The model returns
  `ok == false` with an empty store and tilemap instead, and does not model
  the message or the process exit.
- Emit.WriteTmxData: `std::vector::at` throws for an index past the end. The
  model requires an 8x16 tilemap of columns times rows entries, which
  `process_file` guarantees.
- Emit.WriteTilemap: the `uint16_t` id plus `tile_start_offset` wraps at 16
  bits, and the model computes that wrap. `Emit.TilemapWordDecodes` states
  the fields only when the sum stays below 0x200, so that it does not run
  into the flag bits.
- The raw-run cap follows the code: the counting loop of
  gfxcomp_stm.c:151-156 can leave a raw run of 63 words, not the 62 a
  reading of the format description suggests.

## Findings

| source | as written | input that shows it | evidently intended | confidence | as-written member | corrected member |
|---|---|---|---|---|---|---|
| compressors/gfxcomp_stm.c:63 | `checkHI` tests for the end of the data with `current+i==in_size`. That `in_size` is the global of line 16, which is never assigned, because `STM_compressTilemap` declares its own local `in_size` at line 96. So the test never holds, and line 65 reads `buf[current+i]` one word past the input. | Words [0x0100], width 1, height 1. The announcement is temporary (0x0E) when the word past the input has high byte 0, and permanent (0x0A) when it has high byte 1. | At the end of the data the announcement is permanent, and no word past the input is read. | not executed | Stm.TemporaryAsWrittenReadsPastEnd | Stm.StmCompressor.CheckHI |
