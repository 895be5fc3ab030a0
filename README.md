# RetroLib: Sega Mega Drive tile and palette encoding, in Dafny

This project models the part of RetroLib that turns a bitmap into Sega Mega Drive (Genesis) video data, and proves properties of that model. The covered work is:

- the colour analysis in `Palette.cs`: palette extraction, the 16-colour check, the most frequent colour, the nearest palette colour, two- and four-level quantisation, and colour replacement;
- the 9-bit colour codec and the BEX palette text format in `9bitPalette.cs`;
- the tile pipeline and binary formats in `SegaGenesis.cs`:
  - the deduplicated tile atlas, the tile map and the font scan;
  - cutting an image into sprites of at most 32x32 pixels;
  - the palette split;
  - the nibble-packed tile stream, the big-endian tile-map and palette streams, and the BKG header;
  - the CHR decoder, its size check, its layout suggestion and its column-major sprite walk.

Modules, one per concern:

- `Wrappers`: `Option`, `Result` and the .NET exceptions the library raises.
- `Arith`, `Sequences`: small arithmetic and sequence facts.
- `Text`: the .NET string operations the library relies on:
  - the `X3`/`X8` hex formats;
  - `int.Parse` with `HexNumber`;
  - `Split`, `Join`, `Trim` and `Replace`.
- `Enumeration`: a `HashSet` as a duplicate-free sequence (`Dedup`), `List.IndexOf`, and the row-major scan of nested `for` loops (`RowMajor`).
- `Drawing`: `Color` as an (A, R, G, B) byte tuple, and two forms of bitmap:
  - `Image`, an immutable grid, for members that only read pixels;
  - `Bitmap`, a class over an `array2`, for members that call `SetPixel`.
- `BinaryIO`: `BinaryWriter` as a class whose `bytes` field each `Write` extends, plus big-endian 16-bit words.
- `Palette`, `NineBitPalette`, `SegaPalette`, `SegaTiles`, `SegaTileMap`, `SegaSprites`, `SegaBinary`, `SegaChr`: the library members themselves.

Each loop of the source is a `method` with a `while` loop. The method is proved against a function that states the result, and the lemmas beside that function state what the source promises.

Assumption: a `HashSet` that is only ever added to enumerates its elements in insertion order, and `Dictionary.FirstOrDefault` visits entries in insertion order. The model relies on this wherever a set is turned into a list (`[.. palette]`, `ElementAt`, `foreach`).

Facts about the code that its names or comments might suggest otherwise:

- The 9-bit encoder packs the top 4 bits of each channel with red in the high nibble (`9bitPalette.cs:158-165`). The decoder reads three 3-bit fields with blue highest (`9bitPalette.cs:190-196`). So decoding an encoded colour does not in general give it back (`NineBitPalette.RedDoesNotRoundTrip`).
- `SplitPalette` keeps the first 16 colours in enumeration order and puts the rest in the second set. It pins no black or white.
- A pixel whose colour is missing from the palette gets tile index -1, not 0. There is no reversed row order.
- `GetTileMap` numbers distinct blocks of ARGB values in first-seen order itself. It uses no atlas and adds no index offset.
- The third word of the BKG header is the number of tile lists, not the number of tiles. The palette is not padded.
- `ConvertChrToBmp` takes the tile count from the requested width and height, not from the file length.
- `Has16Colors` is true for at most 16 colours, not exactly 16.
- The grey quantiser yields only black and dark grey.

## Model

| member | source | states |
|---|---|---|
| Palette.GetPaletteStright | RetroLib/General/Palette.cs:260-278 | the set built over rows (y outer, x inner) is the insertion-ordered set of the pixel scan |
| Palette.PaletteMembers | RetroLib/General/Palette.cs:260-278 | a colour is in the palette iff some pixel has it |
| Palette.PaletteHasEveryPixel | RetroLib/General/Palette.cs:266-276 | every pixel's colour is in the palette |
| Palette.PaletteOnlyPixels | RetroLib/General/Palette.cs:266-276 | every palette colour occurs at some pixel |
| Palette.PaletteDistinct | RetroLib/General/Palette.cs:260-278 | the palette has no duplicates, and its size is the number of distinct pixel colours |
| Palette.PaletteOfEmpty | RetroLib/General/Palette.cs:260-278 | an image with no pixels gives an empty palette |
| Palette.Has16Colors | RetroLib/General/Palette.cs:332-339 | true iff the image has at most 16 distinct colours |
| Palette.Check16Colors | RetroLib/General/Palette.cs:325-331 | throws iff the image has more than 16 distinct colours |
| Palette.CountColors | RetroLib/General/Palette.cs:29-41 | the dictionary holds exactly the listed colours, each with its number of occurrences, keys in first-seen order |
| Palette.MaxValue | RetroLib/General/Palette.cs:43 | `Values.Max()` is a value of the list and no value exceeds it |
| Palette.FirstIndexWith | RetroLib/General/Palette.cs:44 | `FirstOrDefault` finds the first position holding the maximum |
| Palette.FindMostFrequentColor | RetroLib/General/Palette.cs:27-47 | InvalidOperationException iff the list is empty; otherwise a listed colour with the largest count, and every colour met earlier has a smaller count |
| Palette.MostFrequentFirst | RetroLib/General/Palette.cs:43-44 | the first dictionary key whose count is the maximum is the earliest-seen colour of maximal count |
| Palette.DistanceSquared | RetroLib/General/Palette.cs:56-59 | the squared RGB distance is at most 3 * 255 * 255, so it fits the `int.MaxValue` start |
| Palette.FindClosestPaletteColor | RetroLib/General/Palette.cs:49-69 | None (`Color.Empty`) iff the palette is empty; otherwise a palette colour whose squared distance is no larger than any entry's, and strictly smaller than every earlier entry's |
| Palette.FindMostSimilarColorExact | RetroLib/General/Palette.cs:78-81 | returns the pixel colour itself iff it is in the set |
| Palette.ConvertTo4Color | RetroLib/General/Palette.cs:163-186 | opaque result, each channel 0 or 255, and 255 exactly when the input channel is at least 128 |
| Palette.ConvertTo4ColorIdempotent | RetroLib/General/Palette.cs:163-186 | quantising twice equals quantising once |
| Palette.ConvertTo4ColorWithGrayscale | RetroLib/General/Palette.cs:207-228 | an opaque grey whose level is a multiple of 85, black exactly when the mean of R, G and B is below 128 |
| Palette.GrayscaleTwoShades | RetroLib/General/Palette.cs:207-228 | the result is black iff R+G+B < 384, otherwise dark grey; light grey and white never occur |
| Palette.ConvertBitmapTo4Color | RetroLib/General/Palette.cs:146-161 | a fresh bitmap of the same size whose every pixel is the quantised source pixel |
| Palette.ConvertBitmapTo4ColorWithGrayscale | RetroLib/General/Palette.cs:188-203 | a fresh bitmap of the same size whose every pixel is the grey-quantised source pixel |
| Palette.RecolorIdempotent | RetroLib/General/Palette.cs:360-374 | replacing twice equals replacing once, and after replacement prevColor remains only if it equals newColor |
| Palette.ChangeColor | RetroLib/General/Palette.cs:360-374 | changes the given bitmap in place: pixels equal to prevColor become newColor, all others keep their colour; returns the same bitmap |
| NineBitPalette.ConvertColorTo9bit | RetroLib/Palettes/9bitPalette.cs:158-165 | the packed word is at most 0xFFF |
| NineBitPalette.EncoderNibbles | RetroLib/Palettes/9bitPalette.cs:158-165 | the word's three nibbles are R/16, G/16 and B/16, red highest |
| NineBitPalette.NibblesDisjoint | RetroLib/Palettes/9bitPalette.cs:164 | the shifted nibbles do not overlap, so the OR is a sum |
| NineBitPalette.Convert9bitToColor | RetroLib/Palettes/9bitPalette.cs:190-196 | opaque colour, every channel a multiple of 32 and at most 224 |
| NineBitPalette.DecoderWordDecodes | RetroLib/Palettes/9bitPalette.cs:190-196 | a word with fields r at bit 1, g at bit 5 and b at bit 9 decodes to (32r, 32g, 32b) |
| NineBitPalette.DecoderIgnoresOtherBits | RetroLib/Palettes/9bitPalette.cs:192-194 | bits 0, 4, 8 and 12 upwards do not affect the decoded colour |
| NineBitPalette.BlackRoundTrip | RetroLib/Palettes/9bitPalette.cs:158-196 | black encodes to 0x000 and decodes back to black |
| NineBitPalette.WhiteEncodesToFFF | RetroLib/Palettes/9bitPalette.cs:158-196 | white encodes to 0xFFF, which decodes to (224, 224, 224) |
| NineBitPalette.RedDoesNotRoundTrip | RetroLib/Palettes/9bitPalette.cs:158-196 | red encodes to 0xF00, which decodes to (0, 0, 224), so decoding does not invert encoding |
| NineBitPalette.ConvertColorsTo9bit | RetroLib/Palettes/9bitPalette.cs:132-135 | same length and order, entry i is the encoding of colour i |
| NineBitPalette.DecodeWords | RetroLib/Palettes/9bitPalette.cs:176-180 | same length, entry i is the decoding of word i |
| NineBitPalette.Convert9bitToColors | RetroLib/Palettes/9bitPalette.cs:173-182 | the set of decoded colours in first-seen order: no duplicates, at most as many as words, and exactly the colours some word decodes to |
| NineBitPalette.DecodedSet | RetroLib/Palettes/9bitPalette.cs:173-182 | the decoded set is duplicate-free, no larger than the input, and holds exactly the decodings |
| NineBitPalette.GenerateHexPaletteString | RetroLib/Palettes/9bitPalette.cs:109-123 | the "$XXX" entries of the encoded colours joined by ", ": empty for no colours, otherwise 6n - 2 characters |
| NineBitPalette.HexEntriesLength | RetroLib/Palettes/9bitPalette.cs:118 | every entry is four characters, since every word is at most 0xFFF |
| NineBitPalette.GenerateBasiePaletteString | RetroLib/Palettes/9bitPalette.cs:97-102 | the stem with every space turned into '_' and nothing else changed, then "_pal: dataint" and five spaces, then the hex list |
| NineBitPalette.HexEntryShape | RetroLib/Palettes/9bitPalette.cs:118 | an entry is "$" and exactly three uppercase hex digits that read back as the word |
| NineBitPalette.UppercaseDigits | RetroLib/Palettes/9bitPalette.cs:118 | the `X` format writes only uppercase hex digits |
| NineBitPalette.ParseBexPaletteString | RetroLib/Palettes/9bitPalette.cs:30-52 | the parse of the split, '$'-filtered, trimmed and hex-decoded fields; errors are FormatException or OverflowException; the result has no duplicates |
| NineBitPalette.FieldOfPart | RetroLib/Palettes/9bitPalette.cs:41-47 | a part without '$' adds no field; otherwise the trimmed text after the first '$' |
| NineBitPalette.DecodeFieldsStep | RetroLib/Palettes/9bitPalette.cs:51 | each field either adds its decoded colour or stops the parse with the parse error |
| NineBitPalette.DecodeFieldsError | RetroLib/Palettes/9bitPalette.cs:51 | the first malformed field decides the error, whatever follows |
| NineBitPalette.DecodeFieldsErrorKind | RetroLib/Palettes/9bitPalette.cs:51 | a failed parse raises only FormatException or OverflowException |
| NineBitPalette.ParseGeneratedHex | RetroLib/Palettes/9bitPalette.cs:30-123 | parsing a generated hex list gives the decoded encodings of the palette, without duplicates |
| NineBitPalette.ParseGeneratedBasie | RetroLib/Palettes/9bitPalette.cs:97-102 | parsing the Basie line of a stem without ',' or '$' gives the same colours |
| NineBitPalette.ParsePrefixedHex | RetroLib/Palettes/9bitPalette.cs:30-52 | any prefix without ',' or '$' before the hex list leaves the parse unchanged |
| NineBitPalette.ParsePrefixOnly | RetroLib/Palettes/9bitPalette.cs:30-52 | text without ',' or '$' parses to no colours |
| NineBitPalette.ParseDollarList | RetroLib/Palettes/9bitPalette.cs:30-52 | the fields found in `pre + "$f0, $f1, ..."` are exactly f0, f1, ... |
| NineBitPalette.SplitDollarList | RetroLib/Palettes/9bitPalette.cs:33 | splitting a joined dollar list on ',' gives one part per entry, each after a space |
| NineBitPalette.FieldOfEntry | RetroLib/Palettes/9bitPalette.cs:41-46 | the field of `pre + "$" + digits` is the digits |
| NineBitPalette.HexFieldsOfParts | RetroLib/Palettes/9bitPalette.cs:38-48 | the field collection over such parts is the list of digit strings |
| NineBitPalette.DigitFieldsAreHex | RetroLib/Palettes/9bitPalette.cs:118 | the three-digit fields of 12-bit words are all hex digits |
| NineBitPalette.DecodeDigitFields | RetroLib/Palettes/9bitPalette.cs:51 | parsing the three-digit fields of 12-bit words decodes those words |
| NineBitPalette.ExportToBin | RetroLib/Palettes/9bitPalette.cs:54-69 | appends two bytes per palette colour, `color >> 8` then `(byte)color`, in palette order |
| SegaPalette.SplitPalette | RetroLib/Platforms/SegaGenesis.cs:75-97 | first16 is the first min(16, n) colours, remaining the rest; together they are the input, each is duplicate-free and they are disjoint |
| SegaPalette.SplitDisjoint | RetroLib/Platforms/SegaGenesis.cs:75-97 | a prefix and the rest of a duplicate-free sequence are disjoint and duplicate-free |
| SegaTiles.ExtractTileFromImage | RetroLib/Platforms/SegaGenesis.cs:603-625 | the filled 8x8 array is the tile at (x0, y0) |
| SegaTiles.TileCellMeaning | RetroLib/Platforms/SegaGenesis.cs:608-622 | a cell past the image edge is 0; a cell inside is the palette index of its pixel, -1 iff the colour is missing |
| SegaTiles.TileCell | RetroLib/Platforms/SegaGenesis.cs:138-151 | cell (x, y) of a tile is the padded palette index of pixel (x0 + x, y0 + y) |
| SegaTiles.TilesEqual | RetroLib/Platforms/SegaGenesis.cs:157-167 | the element-wise comparison is true iff the two tiles are equal |
| SegaTiles.IsUnique | RetroLib/Platforms/SegaGenesis.cs:154-173 | true iff no listed tile equals the new one |
| SegaTiles.GetUniqueTiles | RetroLib/Platforms/SegaGenesis.cs:125-183 | the atlas: the blocks of the row-major scan, each kept at its first occurrence |
| SegaTiles.AtlasDistinct | RetroLib/Platforms/SegaGenesis.cs:153-178 | no two atlas entries are equal |
| SegaTiles.AtlasHasEveryBlock | RetroLib/Platforms/SegaGenesis.cs:131-178 | every scanned block is in the atlas |
| SegaTiles.AtlasOnlyBlocks | RetroLib/Platforms/SegaGenesis.cs:131-178 | every atlas entry is a scanned block |
| SegaTiles.AtlasSize | RetroLib/Platforms/SegaGenesis.cs:131-178 | at most widthInTiles * heightInTiles entries |
| SegaTiles.AtlasDiscoveryOrder | RetroLib/Platforms/SegaGenesis.cs:131-178 | atlas entries appear in the order the scan first meets them |
| SegaTiles.GetTilesFromBitmap | RetroLib/Platforms/SegaGenesis.cs:413-428 | the tiles at every multiple of 8 below the height (outer) and width (inner) |
| SegaTiles.FontTilesCount | RetroLib/Platforms/SegaGenesis.cs:418-425 | ceil(W/8) * ceil(H/8) tiles |
| SegaTiles.FontTileAt | RetroLib/Platforms/SegaGenesis.cs:418-425 | each font tile is the tile of some in-range block |
| SegaTiles.FontTilesIndexed | RetroLib/Platforms/SegaGenesis.cs:413-428 | with the image's own palette, every cell is a valid palette index |
| SegaTiles.ScanBlockAt | RetroLib/Platforms/SegaGenesis.cs:131-135 | entry k of a block scan is the tile of an in-range block |
| SegaTileMap.RowKeyInjective | RetroLib/Platforms/SegaGenesis.cs:246-257 | equal keys of equally long rows mean equal rows |
| SegaTileMap.TileKeyInjective | RetroLib/Platforms/SegaGenesis.cs:246-257 | two grids of one shape have equal keys iff they are equal |
| SegaTileMap.TileToString | RetroLib/Platforms/SegaGenesis.cs:246-257 | the key is eight uppercase hex digits per cell, row by row |
| SegaTileMap.ArgbRow | RetroLib/Platforms/SegaGenesis.cs:214-224 | a block row holds each pixel's ARGB value, 0 past the edge |
| SegaTileMap.FillBlock | RetroLib/Platforms/SegaGenesis.cs:209-225 | the filled array is the block of ARGB values |
| SegaTileMap.GetTileMap | RetroLib/Platforms/SegaGenesis.cs:185-243 | ArgumentException iff a tile dimension is not positive; otherwise the dictionary numbering of the block keys |
| SegaTileMap.Ranks | RetroLib/Platforms/SegaGenesis.cs:196 | the dictionary's keys are exactly the keys seen |
| SegaTileMap.RanksAreIndices | RetroLib/Platforms/SegaGenesis.cs:231-238 | a key's dictionary value is its position among the distinct keys |
| SegaTileMap.RecordKey | RetroLib/Platforms/SegaGenesis.cs:231-238 | a new key gets the count of unique tiles so far; a known key keeps its number |
| SegaTileMap.TileMapLength | RetroLib/Platforms/SegaGenesis.cs:201-206 | (W / tw) * (H / th) entries |
| SegaTileMap.TileMapSameBlocks | RetroLib/Platforms/SegaGenesis.cs:227-238 | two entries are equal iff their blocks of ARGB values are equal |
| SegaTileMap.TileMapNumbering | RetroLib/Platforms/SegaGenesis.cs:231-238 | an unseen block gets the number of unique blocks before it, and entry i is between 0 and i |
| SegaTileMap.TileMapNoGaps | RetroLib/Platforms/SegaGenesis.cs:231-238 | entry 0 is 0 and every later entry is at most one more than an earlier entry |
| SegaTileMap.NumberingSame | RetroLib/Platforms/SegaGenesis.cs:231-238 | two positions get the same number iff they hold the same key |
| SegaTileMap.NumberingRank | RetroLib/Platforms/SegaGenesis.cs:231-238 | each number is the key's rank among all distinct keys |
| SegaSprites.MaxTileSize | RetroLib/Platforms/SegaGenesis.cs:590-601 | a multiple of 8 at most 32, and 0 iff start >= size |
| SegaSprites.MaxTileSizeLeastCover | RetroLib/Platforms/SegaGenesis.cs:590-601 | the size reaches the edge or 32, and is the least multiple of 8 that does |
| SegaSprites.MaxTileSizeAt | RetroLib/Platforms/SegaGenesis.cs:590-601 | any multiple of 8 with that least-cover property is the result |
| SegaSprites.GetMaxTileSize | RetroLib/Platforms/SegaGenesis.cs:590-601 | the loop returns the extent function |
| SegaSprites.AxisExtent | RetroLib/Platforms/SegaGenesis.cs:573-586 | one axis loop of the two-dimensional overload returns the extent function |
| SegaSprites.GetMaxTileSizeRect | RetroLib/Platforms/SegaGenesis.cs:569-588 | the width and height are the extents along each axis |
| SegaSprites.LayoutCoversImage | RetroLib/Platforms/SegaGenesis.cs:439-468 | every pixel lies in some sprite rectangle |
| SegaSprites.Layout | RetroLib/Platforms/SegaGenesis.cs:439-468 | the rectangles visited from (x, y): none once both x and y are past the image, otherwise starting with a sprite at (x, y) |
| SegaSprites.LayoutSizes | RetroLib/Platforms/SegaGenesis.cs:439-468 | every rectangle has sides that are multiples of 8, at most 32 |
| SegaSprites.LayoutExample | RetroLib/Platforms/SegaGenesis.cs:439-468 | a 40x24 image is cut into (0,0,32x24) and (32,0,8x24) |
| SegaSprites.SpritesExample | RetroLib/Platforms/SegaGenesis.cs:439-468 | a 40x24 image gives two sprites, of 12 and 3 tiles |
| SegaSprites.SpriteTileCount | RetroLib/Platforms/SegaGenesis.cs:444-451 | a sprite holds (w/8) * (h/8) <= 16 tiles |
| SegaSprites.SpriteTileAt | RetroLib/Platforms/SegaGenesis.cs:444-451 | tiles are listed column-major: position col * (h/8) + row holds the tile at (x + 8 col, y + 8 row) |
| SegaSprites.CollectSprite | RetroLib/Platforms/SegaGenesis.cs:444-454 | the tiles of one rectangle, x outer and y inner |
| SegaSprites.SpriteLoopStep | RetroLib/Platforms/SegaGenesis.cs:457-466 | advancing X, or wrapping to the next band, leaves the rest of the layout still to do |
| SegaSprites.ConvertBitmapToSprTiles | RetroLib/Platforms/SegaGenesis.cs:430-470 | one sprite per rectangle of the layout, in order |
| SegaBinary.PackPairNibbles | RetroLib/Platforms/SegaGenesis.cs:493-494 | for cells 0..15 the byte is 16 * even + odd, and the two nibbles give the cells back |
| SegaBinary.BitOrDisjoint | RetroLib/Platforms/SegaGenesis.cs:493 | OR with a value below the shift is addition |
| SegaBinary.RowsBytesAt | RetroLib/Platforms/SegaGenesis.cs:489-496 | byte 4 row + c of a tile packs cells 2c and 2c+1 of that row |
| SegaBinary.TilesBytesAt | RetroLib/Platforms/SegaGenesis.cs:485-498 | tile k occupies bytes 32k to 32k+31 of the stream |
| SegaBinary.TilesBytesAppend | RetroLib/Platforms/SegaGenesis.cs:485-498 | the stream of two lists is the concatenation of their streams |
| SegaBinary.WriteTileRow | RetroLib/Platforms/SegaGenesis.cs:491-495 | one row appends its four packed bytes |
| SegaBinary.WriteTilesToBinary | RetroLib/Platforms/SegaGenesis.cs:485-498 | appends 32 packed bytes per tile, in order |
| SegaBinary.WriteTileListsToBinary | RetroLib/Platforms/SegaGenesis.cs:478-484 | appends the streams of the lists in order |
| SegaBinary.UnpackCell | RetroLib/Platforms/SegaGenesis.cs:339-349 | an unpacked cell is in 0..15 |
| SegaBinary.UnpackTiles | RetroLib/Platforms/SegaGenesis.cs:322-359 | (W/8) * (H/8) tiles with C# truncating division, none when that is negative |
| SegaBinary.UnpackedCells | RetroLib/Platforms/SegaGenesis.cs:335-351 | every cell is in 0..15, and cells past the end of the data are 0 |
| SegaBinary.UnpackPackedCell | RetroLib/Platforms/SegaGenesis.cs:342-349 | unpacking a packed stream gives back any cell whose byte pair is in 0..15 |
| SegaBinary.UnpackPacked | RetroLib/Platforms/SegaGenesis.cs:342-349 | unpacking tile k of a packed stream gives tile k |
| SegaBinary.UnpackRoundTrip | RetroLib/Platforms/SegaGenesis.cs:322-359 | reading back the stream written for tiles with cells in 0..15 gives those tiles |
| SegaBinary.ReadTileRow | RetroLib/Platforms/SegaGenesis.cs:335-351 | reading one row advances the position by 4 bytes, or to the end, and yields that row |
| SegaBinary.ReadTilesFromBinary | RetroLib/Platforms/SegaGenesis.cs:322-359 | the reader loop yields the unpacked tiles |
| SegaBinary.FirstOutOfRange | RetroLib/Platforms/SegaGenesis.cs:517-523 | the first index outside 0..65535, if any |
| SegaBinary.FirstOutOfRangeIsFirst | RetroLib/Platforms/SegaGenesis.cs:517-523 | every entry before it is in range |
| SegaBinary.MapStream | RetroLib/Platforms/SegaGenesis.cs:513-531 | two bytes per entry before the first bad one |
| SegaBinary.MapStreamRead | RetroLib/Platforms/SegaGenesis.cs:525-529 | word j of the stream reads back as entry j, high byte first |
| SegaBinary.MapStreamAppend | RetroLib/Platforms/SegaGenesis.cs:513-531 | an all-valid map followed by another writes their streams in sequence |
| SegaBinary.MapStreamCut | RetroLib/Platforms/SegaGenesis.cs:519-523 | nothing after a bad entry is written |
| SegaBinary.WriteTileMapToBinary | RetroLib/Platforms/SegaGenesis.cs:513-531 | writes the entries before the first bad one; ArgumentOutOfRangeException iff some entry is outside 0..65535 |
| SegaBinary.WriteTileMapsToBinary | RetroLib/Platforms/SegaGenesis.cs:506-512 | the maps in sequence, stopping at the first bad entry of any map |
| SegaBinary.WritePaletteToBinary | RetroLib/Platforms/SegaGenesis.cs:547-559 | two bytes per colour, high byte first |
| SegaBinary.WritePalettesToBinary | RetroLib/Platforms/SegaGenesis.cs:539-545 | the palettes' words in sequence |
| SegaBinary.BkgHeader | RetroLib/Platforms/SegaGenesis.cs:48-67 | 14 bytes beginning with "BKG\0" and the version bytes 1, 1 |
| SegaBinary.BkgHeaderFields | RetroLib/Platforms/SegaGenesis.cs:48-67 | 14 bytes: "BKG\0", 0x0101, then the tile-list count, width and height in tiles and the plane count as 16-bit big-endian words |
| SegaBinary.BkgHeaderExample | RetroLib/Platforms/SegaGenesis.cs:48-67 | a 16x16 image with one tile list and under 16 colours gives 42 4B 47 00 01 01 00 01 00 02 00 02 00 01 |
| SegaChr.FloorSqrt | RetroLib/Platforms/SegaGenesis.cs:630 | r * r <= n < (r + 1) * (r + 1) |
| SegaChr.LargestDivisor | RetroLib/Platforms/SegaGenesis.cs:636-647 | the largest divisor of n not above m, and 1 when m is 0 |
| SegaChr.CalculateTileLayout | RetroLib/Platforms/SegaGenesis.cs:627-650 | the loop returns the layout function |
| SegaChr.TileLayoutFactors | RetroLib/Platforms/SegaGenesis.cs:627-650 | with n = fileSize / 32 > 0: width * height = n and 1 <= width <= height; n = 0 gives (1, 0) |
| SegaChr.TileLayoutSquarest | RetroLib/Platforms/SegaGenesis.cs:627-650 | no divisor of n between the width and sqrt(n) exists |
| SegaChr.SizeMismatch | RetroLib/Platforms/SegaGenesis.cs:261-265 | file length differs from W * H / 2 and exceeds 512 |
| SegaChr.RowsBounds | RetroLib/Platforms/SegaGenesis.cs:294-302 | the walk's column height `Rows(H)` is ceil(H/8), the fewest 8-pixel tiles that cover H |
| SegaChr.WalkStep | RetroLib/Platforms/SegaGenesis.cs:294-302 | after tile k the walk moves down one tile, or to the top of the next column at the bottom |
| SegaChr.StampUnique | RetroLib/Platforms/SegaGenesis.cs:284-303 | different steps of the walk set different pixels |
| SegaChr.PaintPixel | RetroLib/Platforms/SegaGenesis.cs:290 | one `SetPixel` extends the painted region by one pixel |
| SegaChr.PaintTile | RetroLib/Platforms/SegaGenesis.cs:286-292 | a tile paints its 64 pixels iff it fits the bitmap and its indices fit the palette |
| SegaChr.DrawSprites | RetroLib/Platforms/SegaGenesis.cs:282-303 | ArgumentOutOfRangeException iff some tile does not fit; otherwise every pixel has its tile's palette colour, transparent where no tile lands |
| SegaChr.ConvertChrToBmp | RetroLib/Platforms/SegaGenesis.cs:259-307 | ArgumentException iff the size check fails or a dimension is not positive; otherwise `Ok(None)` for a screen, window or font file; for a sprite file a bitmap iff every tile is drawable, else ArgumentOutOfRangeException; the bitmap's pixels are the walk's colours |
| BinaryIO.ByteWriter.Write | RetroLib/Platforms/SegaGenesis.cs:494 | a write appends one byte |
| BinaryIO.Ushort | RetroLib/Platforms/SegaGenesis.cs:53 | the `(ushort)` cast keeps values in 0..65535 and wraps the rest |
| BinaryIO.U16BE | RetroLib/Platforms/SegaGenesis.cs:526-529 | two bytes that read back as the word |
| BinaryIO.U16BEOfRead | RetroLib/Platforms/SegaGenesis.cs:526-529 | writing the word read from two bytes gives the bytes back |
| BinaryIO.U16sBERead | RetroLib/Palettes/9bitPalette.cs:60-68 | word i of a written list reads back as entry i |
| Drawing.ToArgb | RetroLib/Platforms/SegaGenesis.cs:222 | a signed 32-bit value whose unsigned word is A, R, G, B from high to low byte |
| Drawing.ToArgbInjective | RetroLib/Platforms/SegaGenesis.cs:222 | distinct colours have distinct ARGB values |
| Drawing.PixelVisited | RetroLib/General/Palette.cs:266-276 | the row-major scan visits pixel (x, y) at position y * W + x |
| Drawing.ScanIsPixel | RetroLib/General/Palette.cs:266-276 | position k of the scan is pixel (k mod W, k / W) |
| Drawing.Bitmap.constructor | RetroLib/Platforms/SegaGenesis.cs:272 | a new bitmap of the given size, all transparent |
| Enumeration.Add | RetroLib/General/Palette.cs:274 | `HashSet.Add` keeps the set duplicate-free and contains the element |
| Enumeration.IndexOf | RetroLib/Platforms/SegaGenesis.cs:148 | `List.IndexOf` is -1 iff absent, else the first position holding the element |
| Enumeration.DedupDistinct | RetroLib/General/Palette.cs:263-277 | a set built by adding has no duplicates |
| Enumeration.DedupMembers | RetroLib/General/Palette.cs:263-277 | it contains exactly the added elements |
| Enumeration.DedupCardinality | RetroLib/General/Palette.cs:263-277 | its size is the number of distinct added elements |
| Enumeration.DedupOrder | RetroLib/General/Palette.cs:263-277 | it enumerates elements in the order of their first addition |
| Enumeration.RowMajorAt | RetroLib/Platforms/SegaGenesis.cs:131-133 | the nested scan visits (x, y) at position y * cols + x, cols * rows positions in all |
| Text.HexDigitsRoundTrip | RetroLib/Palettes/9bitPalette.cs:118 | a value below 16^n written as n hex digits reads back as itself |
| Text.FormatX8Injective | RetroLib/Platforms/SegaGenesis.cs:253 | `ToString("X8")` of 32-bit ints is injective |
| Text.ParseHexInt32 | RetroLib/Palettes/9bitPalette.cs:51 | a successful hex parse is a signed 32-bit value; the digits may be surrounded by white space and followed by U+0000 characters |
| Text.ParseHexIgnoresTrailingNul | RetroLib/Palettes/9bitPalette.cs:51 | a U+0000 appended to any text leaves the parse result unchanged |
| Text.ParseHexTrailingExamples | RetroLib/Palettes/9bitPalette.cs:51 | "FFF \0" parses to 0xFFF, while "FFF\0 " is a FormatException |
| Text.JoinLength | RetroLib/Palettes/9bitPalette.cs:120 | n parts of length k joined by a separator give n·k characters plus n - 1 separators |
| Text.TrimHexDigits | RetroLib/Palettes/9bitPalette.cs:45 | trimming a run of hex digits leaves it unchanged |
| Text.TrimStartSuffix | RetroLib/Palettes/9bitPalette.cs:45 | trimming the start leaves a suffix of the input |
| Text.SplitJoin | RetroLib/Palettes/9bitPalette.cs:33 | joining the parts of a split with the separator gives the input back, and no part holds the separator |
| Text.SplitOfJoin | RetroLib/Palettes/9bitPalette.cs:120 | splitting a list joined with ", " gives the parts back, each after a space |
| Text.ReplaceChar | RetroLib/Palettes/9bitPalette.cs:100 | `Replace(" ", "_")` changes every space and nothing else |

## Left out

- `GetPaletteFast` is not modelled. It walks raw pixel memory through an unsafe pointer, its result depends on the pixel format, and the code marks it unreliable.
- The GDI+ and ImageMagick wrappers are not modelled: `ConvertTo16Color`, `ConvertTo16`, `MakeTransperentColor`, `ExportImg` and `ConvertPcxToBkg`. Their behaviour lives in those libraries.
- The floating-point part of `FindMostSimilarColor` and `CalculateColorDistance` is not modelled; only the exact-match branch is.
- `Math.Sqrt` in `CalculateTileLayout` is modelled as integer floor square root. That agrees with `(int)Math.Sqrt(n)` for every non-negative `int` n. A double holds such an n exactly. Below 2^31 the distance from √n to the next integer is far larger than a rounding step, so the correctly rounded square root never reaches that integer, and the cast truncates it to the floor.
- File and stream plumbing is not modelled: opening files, `FileInfo.Length`, `File.Delete`, `Bitmap.Save`, `GetPaletteFromBex` and `ExportToBexFile`. Writers are the `ByteWriter` byte sequence, readers are functions of a byte sequence, and the file length is the length of that sequence.
- Path naming is not modelled: sprite file names and `Path.ChangeExtension`. `GenerateBasiePaletteString` takes the file stem directly instead of a path.
- The end-to-end `ConvertBmpToBkg` is not modelled. It assigns `tiles[0]` and `tileMap[0]` on empty lists, so it throws before writing anything. Only its header layout is modelled, as a function of its fields. Its plane count is 2 for a palette of exactly 16 colours; the header function keeps that.
- The screen branch of `ConvertChrToBmp` is modelled only as its outcome: no bitmap, `Ok(None)`. It reads the tiles and discards them.
- The unsupported-mode throws of `ConvertBmpToChr` are not modelled. They are a dispatch on the mode; the sprite and font branches call members that are modelled.
- Console output is not modelled: `PrintRGBto9bitSet` and the warning for more than 16 colours.
- `Basiegaxor.cs` is not part of this model. It only wraps `GenerateBasiePaletteString` in text and file writes.
- Null arguments are not modelled, since Dafny values cannot be null. So the `ArgumentNullException` throws are left out.
- `int` overflow of pixel coordinates and of `W * H` is not modelled, because integers here are unbounded. GDI+ limits bitmap sizes far below the overflow range. The `(int)` cast of the long tile count in `CalculateTileLayout` is not modelled either.
- Colour equality is equality of the A, R, G and B bytes. .NET `Color.Equals` also compares whether a colour is a named colour. Colours read from a bitmap are never named. Colours a caller passes in, such as `prevColor` of `ChangeColor` and palettes given to `GetUniqueTiles`, `ExtractTileFromImage` or `FindMostSimilarColor`, are assumed unnamed too, e.g. built with `Color.FromArgb`. For a named `prevColor` such as `Color.Black`, the source's `ChangeColor` changes no pixel, and `IndexOf` or `Contains` against a named palette entry finds nothing; the model does not capture that.
- `int[,]` tiles are modelled as values, since no tile is changed after it is listed. So aliasing between the returned lists and the arrays is not represented.
