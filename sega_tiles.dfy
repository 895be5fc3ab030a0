/**
 * The 8x8 tile scans of RetroLib/Platforms/SegaGenesis.cs: one tile of palette
 * indices (`ExtractTileFromImage`), the deduplicated atlas (`GetUniqueTiles`) and
 * the font scan (`GetTilesFromBitmap`).
 *
 * An `int[,]` tile is a value here, `t[y][x]` standing for `tile[y, x]`: the library
 * never writes to a tile once it has been added to a list.
 */
module SegaTiles {
  import opened Wrappers
  import opened Enumeration
  import opened Sequences
  import opened Drawing
  import Palette

  /** Pixels per tile side. */
  const TileSize := 8

  /** The shape of `new int[TILE_SIZE, TILE_SIZE]`. */
  predicate IsTile(t: seq<seq<int>>) {
    |t| == TileSize && forall y :: 0 <= y < TileSize ==> |t[y]| == TileSize
  }

  /** An 8x8 grid of cells, `t[y][x]` being `tile[y, x]`. */
  type Tile = t: seq<seq<int>> | IsTile(t) witness seq(TileSize, y => seq(TileSize, x => 0))

  /** The cell for pixel (x0 + x, y0 + y): 0 outside the image, else the colour's palette index or -1. */
  function Cell(img: Image, palette: seq<Color>, x0: nat, y0: nat, x: nat, y: nat): int {
    if x0 + x >= img.width || y0 + y >= img.height then 0
    else IndexOf(palette, GetPixel(img, x0 + x, y0 + y))
  }

  function TileRow(img: Image, palette: seq<Color>, x0: nat, y0: nat, y: nat): (row: seq<int>)
    ensures |row| == TileSize
  {
    seq(TileSize, x requires 0 <= x < TileSize => Cell(img, palette, x0, y0, x, y))
  }

  /**
   * What a cell says about its pixel: 0 past the right or bottom edge; inside the image,
   * -1 exactly when the palette lacks the pixel's colour, else a position holding that colour.
   */
  predicate CellMeaning(img: Image, palette: seq<Color>, x0: nat, y0: nat, x: nat, y: nat, c: int) {
    (x0 + x >= img.width || y0 + y >= img.height ==> c == 0) &&
    (x0 + x < img.width && y0 + y < img.height ==>
      -1 <= c < |palette| &&
      (c == -1 <==> GetPixel(img, x0 + x, y0 + y) !in palette) &&
      (c >= 0 ==> palette[c] == GetPixel(img, x0 + x, y0 + y)))
  }

  /** The tile whose top-left pixel is (x0, y0). */
  function TileAt(img: Image, palette: seq<Color>, x0: nat, y0: nat): Tile {
    seq(TileSize, y requires 0 <= y < TileSize => TileRow(img, palette, x0, y0, y))
  }

  /**
   * `ExtractTileFromImage`: cells past the right or bottom edge are 0; every other cell is
   * the first palette position holding the pixel's colour, or -1 when the palette lacks it.
   */
  method ExtractTileFromImage(img: Image, palette: seq<Color>, x0: nat, y0: nat) returns (tile: Tile)
    ensures tile == TileAt(img, palette, x0, y0)
  {
    var rows: seq<seq<int>> := [];
    for y := 0 to TileSize
      invariant rows == TileAt(img, palette, x0, y0)[..y]
    {
      var row: seq<int> := [];
      for x := 0 to TileSize
        invariant row == TileRow(img, palette, x0, y0, y)[..x]
      {
        var cell;
        if x0 + x >= img.width || y0 + y >= img.height {
          cell := 0;
        } else {
          var color := img.rows[y0 + y][x0 + x];
          cell := IndexOf(palette, color);
        }
        assert cell == Cell(img, palette, x0, y0, x, y);
        row := row + [cell];
      }
      assert row == TileRow(img, palette, x0, y0, y);
      rows := rows + [row];
    }
    assert rows == TileAt(img, palette, x0, y0);
    tile := rows;
  }

  /** Every cell of an extracted tile means what `CellMeaning` says. */
  lemma TileCellMeaning(img: Image, palette: seq<Color>, x0: nat, y0: nat, x: nat, y: nat)
    requires x < TileSize && y < TileSize
    ensures CellMeaning(img, palette, x0, y0, x, y, TileAt(img, palette, x0, y0)[y][x])
  {
    TileCell(img, palette, x0, y0, x, y);
  }

  /** The loops that compare a tile with an atlas entry, stopping at the first difference. */
  method TilesEqual(tile: Tile, existingTile: Tile) returns (tilesEqual: bool)
    ensures tilesEqual <==> tile == existingTile
  {
    tilesEqual := true;
    var i := 0;
    while i < TileSize && tilesEqual
      invariant 0 <= i <= TileSize
      invariant tilesEqual <==> tile[..i] == existingTile[..i]
    {
      var j := 0;
      while j < TileSize && tilesEqual
        invariant 0 <= j <= TileSize
        invariant tilesEqual <==> tile[..i] == existingTile[..i] && tile[i][..j] == existingTile[i][..j]
      {
        if tile[i][j] != existingTile[i][j] {
          tilesEqual := false;
        } else {
          assert tile[i][..j + 1] == tile[i][..j] + [tile[i][j]];
          assert existingTile[i][..j + 1] == existingTile[i][..j] + [existingTile[i][j]];
        }
        j := j + 1;
      }
      if tilesEqual {
        assert tile[i] == tile[i][..TileSize] && existingTile[i] == existingTile[i][..TileSize];
        assert tile[..i + 1] == tile[..i] + [tile[i]];
        assert existingTile[..i + 1] == existingTile[..i] + [existingTile[i]];
      } else if tile[..i] == existingTile[..i] {
        assert tile[..i + 1][i] == tile[i] && existingTile[..i + 1][i] == existingTile[i];
        assert tile[i][..j] != existingTile[i][..j];
      }
      i := i + 1;
    }
    if tilesEqual {
      assert tile == tile[..TileSize] && existingTile == existingTile[..TileSize];
    } else {
      assert tile[..i] != existingTile[..i];
    }
  }

  /** The `foreach` over the atlas that looks for an equal tile and breaks at the first one. */
  method IsUnique(tile: Tile, uniqueTiles: seq<Tile>) returns (isUnique: bool)
    ensures isUnique <==> tile !in uniqueTiles
  {
    isUnique := true;
    for k := 0 to |uniqueTiles|
      invariant tile !in uniqueTiles[..k]
    {
      var tilesEqual := TilesEqual(tile, uniqueTiles[k]);
      if tilesEqual {
        isUnique := false;
        break;
      }
      assert uniqueTiles[..k + 1] == uniqueTiles[..k] + [uniqueTiles[k]];
    }
    assert isUnique ==> uniqueTiles[..|uniqueTiles|] == uniqueTiles;
  }

  /** The block at tile column tileX of tile row tileY. */
  function BlockFn(img: Image, palette: seq<Color>): (nat, nat) -> Tile {
    (tileX: nat, tileY: nat) => TileAt(img, palette, TileSize * tileX, TileSize * tileY)
  }

  /** Tile counts that are negative scan nothing. */
  function Count(n: int): nat {
    if n < 0 then 0 else n
  }

  /** The blocks of the row-major scan, y outer and x inner, before deduplication. */
  function Blocks(img: Image, palette: seq<Color>, widthInTiles: int, heightInTiles: int): seq<Tile> {
    RowMajor(BlockFn(img, palette), Count(widthInTiles), Count(heightInTiles))
  }

  /** What `GetUniqueTiles` computes: the scanned blocks with repeats dropped, in first-discovery order. */
  function Atlas(img: Image, palette: seq<Color>, widthInTiles: int, heightInTiles: int): seq<Tile> {
    Dedup(Blocks(img, palette, widthInTiles, heightInTiles))
  }

  /**
   * `GetUniqueTiles(bitmap, palette, widthInTiles, heightInTiles)`: each block of the scan is
   * appended unless an equal tile is already in the list.
   */
  method GetUniqueTiles(img: Image, palette: seq<Color>, widthInTiles: int, heightInTiles: int)
    returns (uniqueTiles: seq<Tile>)
    ensures uniqueTiles == Atlas(img, palette, widthInTiles, heightInTiles)
  {
    uniqueTiles := [];
    ghost var f := BlockFn(img, palette);
    ghost var scanned: seq<Tile> := [];
    for y := 0 to Count(heightInTiles)
      invariant scanned == RowMajor(f, Count(widthInTiles), y)
      invariant uniqueTiles == Dedup(scanned)
    {
      ghost var above := scanned;
      for x := 0 to Count(widthInTiles)
        invariant scanned == above + Row(f, y, x)
        invariant uniqueTiles == Dedup(scanned)
      {
        var tile := ExtractTileFromImage(img, palette, TileSize * x, TileSize * y);
        assert tile == f(x, y);
        var isUnique := IsUnique(tile, uniqueTiles);
        DedupSnoc(scanned, tile);
        if isUnique {
          uniqueTiles := uniqueTiles + [tile];
        }
        assert uniqueTiles == Add(Dedup(scanned), tile);
        AppendAssoc(above, Row(f, y, x), [tile]);
        scanned := scanned + [tile];
      }
      ScanNextRow(f, Count(widthInTiles), y, above);
    }
  }

  /** No two atlas entries are equal. */
  lemma AtlasDistinct(img: Image, palette: seq<Color>, widthInTiles: int, heightInTiles: int)
    ensures Distinct(Atlas(img, palette, widthInTiles, heightInTiles))
  {
    DedupDistinct(Blocks(img, palette, widthInTiles, heightInTiles));
  }

  /** Every block of the scan is in the atlas. */
  lemma AtlasHasEveryBlock(img: Image, palette: seq<Color>, widthInTiles: int, heightInTiles: int, tileX: nat, tileY: nat)
    requires tileX < Count(widthInTiles) && tileY < Count(heightInTiles)
    ensures TileAt(img, palette, TileSize * tileX, TileSize * tileY) in Atlas(img, palette, widthInTiles, heightInTiles)
  {
    var blocks := Blocks(img, palette, widthInTiles, heightInTiles);
    var f := BlockFn(img, palette);
    var i := tileY * Count(widthInTiles) + tileX;
    RowMajorAt(f, Count(widthInTiles), Count(heightInTiles), tileX, tileY);
    assert blocks[i] == f(tileX, tileY);
    assert blocks[i] in blocks;
    DedupMembers(blocks);
  }

  /** Every atlas entry is some block of the scan. */
  lemma AtlasOnlyBlocks(img: Image, palette: seq<Color>, widthInTiles: int, heightInTiles: int, t: Tile)
    requires t in Atlas(img, palette, widthInTiles, heightInTiles)
    ensures exists tileX: nat, tileY: nat ::
      (tileX < Count(widthInTiles) && tileY < Count(heightInTiles) &&
       t == TileAt(img, palette, TileSize * tileX, TileSize * tileY))
  {
    var blocks := Blocks(img, palette, widthInTiles, heightInTiles);
    DedupMembers(blocks);
    var k :| 0 <= k < |blocks| && blocks[k] == t;
    var tileX, tileY := ScanBlockAt(img, palette, Count(widthInTiles), Count(heightInTiles), k);
    assert t == TileAt(img, palette, TileSize * tileX, TileSize * tileY);
  }

  /** The atlas has at most one entry per block. */
  lemma AtlasSize(img: Image, palette: seq<Color>, widthInTiles: int, heightInTiles: int)
    ensures |Atlas(img, palette, widthInTiles, heightInTiles)| <= Count(widthInTiles) * Count(heightInTiles)
  {
    var blocks := Blocks(img, palette, widthInTiles, heightInTiles);
    DedupLength(blocks);
    RowMajorLength(BlockFn(img, palette), Count(widthInTiles), Count(heightInTiles));
  }

  /** Atlas entries appear in the order in which the scan first meets them. */
  lemma AtlasDiscoveryOrder(img: Image, palette: seq<Color>, widthInTiles: int, heightInTiles: int, i: nat, j: nat)
    requires i < j < |Atlas(img, palette, widthInTiles, heightInTiles)|
    ensures var blocks := Blocks(img, palette, widthInTiles, heightInTiles);
      var atlas := Atlas(img, palette, widthInTiles, heightInTiles);
      IndexOf(blocks, atlas[i]) < IndexOf(blocks, atlas[j])
  {
    DedupFirstSeenOrder(Blocks(img, palette, widthInTiles, heightInTiles), i, j);
  }

  /** Ceiling division by the tile size: the number of `+= 8` steps below n. */
  function Steps(n: nat): nat {
    (n + TileSize - 1) / TileSize
  }

  /** What `GetTilesFromBitmap` computes: every tile position of the image, y outer and x inner. */
  function FontTiles(img: Image): seq<Tile> {
    RowMajor(BlockFn(img, Palette.PaletteOf(img)), Steps(img.width), Steps(img.height))
  }

  /**
   * `GetTilesFromBitmap`: the image's own palette, then one tile every 8 pixels
   * down and across, partial tiles at the edges included.
   */
  method GetTilesFromBitmap(img: Image) returns (tiles: seq<Tile>)
    ensures tiles == FontTiles(img)
  {
    tiles := [];
    var palette := Palette.GetPaletteStright(img);
    ghost var f := BlockFn(img, palette);
    ghost var cols, rows := Steps(img.width), Steps(img.height);
    var y0 := 0;
    ghost var tileY := 0;
    while y0 < img.height
      invariant y0 == TileSize * tileY && tileY <= rows
      invariant tiles == RowMajor(f, cols, tileY)
    {
      StepsBelow(tileY, img.height);
      ghost var above := tiles;
      var x0 := 0;
      ghost var tileX := 0;
      while x0 < img.width
        invariant x0 == TileSize * tileX && tileX <= cols
        invariant tiles == above + Row(f, tileY, tileX)
      {
        StepsBelow(tileX, img.width);
        var tile := ExtractTileFromImage(img, palette, x0, y0);
        BlockAt(img, palette, tileX, tileY);
        AppendAssoc(above, Row(f, tileY, tileX), [tile]);
        tiles := tiles + [tile];
        x0, tileX := x0 + TileSize, tileX + 1;
      }
      StepsReached(tileX, img.width);
      ScanNextRow(f, cols, tileY, above);
      y0, tileY := y0 + TileSize, tileY + 1;
    }
    StepsReached(tileY, img.height);
  }

  /** With the image's own palette every cell inside the image is a valid index: no -1 appears. */
  lemma FontTilesIndexed(img: Image, k: nat, y: nat, x: nat)
    requires k < |FontTiles(img)| && y < TileSize && x < TileSize
    ensures 0 <= FontTiles(img)[k][y][x] < |Palette.PaletteOf(img)|
  {
    var palette := Palette.PaletteOf(img);
    var cols := Steps(img.width);
    var tileX, tileY := FontTileAt(img, k);
    var x0, y0 := TileSize * tileX, TileSize * tileY;
    TileCell(img, palette, x0, y0, x, y);
    StepsBound(tileX, img.width);
    StepsBound(tileY, img.height);
    Palette.PaletteHasEveryPixel(img, x0, y0);
    if x0 + x < img.width && y0 + y < img.height {
      Palette.PaletteHasEveryPixel(img, x0 + x, y0 + y);
    }
  }

  /** Font tile k is the block at column k % cols of row k / cols. */
  lemma FontTileAt(img: Image, k: nat) returns (tileX: nat, tileY: nat)
    requires k < |FontTiles(img)|
    ensures tileX < Steps(img.width) && tileY < Steps(img.height)
    ensures FontTiles(img)[k] == TileAt(img, Palette.PaletteOf(img), TileSize * tileX, TileSize * tileY)
  {
    tileX, tileY := ScanBlockAt(img, Palette.PaletteOf(img), Steps(img.width), Steps(img.height), k);
  }

  /** Entry k of a scan of blocks is the block at column k % cols of row k / cols. */
  lemma ScanBlockAt(img: Image, palette: seq<Color>, cols: nat, rows: nat, k: nat) returns (tileX: nat, tileY: nat)
    requires k < |RowMajor(BlockFn(img, palette), cols, rows)|
    ensures tileX < cols && tileY < rows
    ensures RowMajor(BlockFn(img, palette), cols, rows)[k] == TileAt(img, palette, TileSize * tileX, TileSize * tileY)
  {
    RowMajorElement(BlockFn(img, palette), cols, rows, k);
    tileX, tileY := k % cols, k / cols;
    BlockAt(img, palette, tileX, tileY);
  }

  /** The block function at (tileX, tileY) is the tile whose corner is 8 times that. */
  lemma BlockAt(img: Image, palette: seq<Color>, tileX: nat, tileY: nat)
    ensures BlockFn(img, palette)(tileX, tileY) == TileAt(img, palette, TileSize * tileX, TileSize * tileY)
  {
  }

  /** Cell (x, y) of the tile at (x0, y0). */
  lemma TileCell(img: Image, palette: seq<Color>, x0: nat, y0: nat, x: nat, y: nat)
    requires x < TileSize && y < TileSize
    ensures TileAt(img, palette, x0, y0)[y][x] == Cell(img, palette, x0, y0, x, y)
  {
  }

  /** A tile position of the font scan starts inside the image. */
  lemma StepsBound(i: nat, n: nat)
    requires i < Steps(n)
    ensures TileSize * i < n
  {
  }

  /** A step that starts below n is one of the Steps(n) steps. */
  lemma StepsBelow(i: nat, n: nat)
    requires TileSize * i < n
    ensures i < Steps(n)
  {
  }

  /** The steps stop exactly when n is reached. */
  lemma StepsReached(i: nat, n: nat)
    requires i <= Steps(n) && TileSize * i >= n
    ensures i == Steps(n)
  {
  }

  /** The font scan yields ceil(W / 8) * ceil(H / 8) tiles. */
  lemma FontTilesCount(img: Image)
    ensures |FontTiles(img)| == Steps(img.width) * Steps(img.height)
  {
    RowMajorLength(BlockFn(img, Palette.PaletteOf(img)), Steps(img.width), Steps(img.height));
  }
}
