/**
 * The sprite cut of RetroLib/Platforms/SegaGenesis.cs: `GetMaxTileSize` and
 * `ConvertBitmapToSprTiles`. The image is covered strip by strip, left to right, by
 * rectangles of at most 32x32 pixels (4x4 tiles, the largest Mega Drive sprite);
 * each rectangle becomes one sprite, its tiles listed column by column.
 */
module SegaSprites {
  import opened Arith
  import opened Enumeration
  import opened Sequences
  import opened Drawing
  import opened SegaTiles
  import Palette

  /** `MAX_TILE_SIZE`: the side of the largest sprite, in pixels. */
  const MaxSpriteSize := 32

  /**
   * The extent a sprite starting at `start` takes along an axis of length `size`: none
   * when it starts past the end, else what is left rounded up to whole tiles, at most 32.
   */
  function MaxTileSize(start: int, size: int): (x: nat)
    ensures x % TileSize == 0 && x <= MaxSpriteSize
    ensures x == 0 <==> start >= size
  {
    if start >= size then 0
    else if size - start >= MaxSpriteSize then MaxSpriteSize
    else ((size - start + TileSize - 1) / TileSize) * TileSize
  }

  /**
   * The extent is the least multiple of the tile size that reaches the end of the axis,
   * or 32 when none up to 32 does.
   */
  lemma MaxTileSizeLeastCover(start: int, size: int)
    ensures var x := MaxTileSize(start, size);
      (x == MaxSpriteSize || start + x >= size) &&
      (x == 0 || start + x - TileSize < size)
  {
    var x := MaxTileSize(start, size);
    if start < size && size - start < MaxSpriteSize {
      var d := size - start;
      var k := (d + TileSize - 1) / TileSize;
      QuotRem(k, (d + TileSize - 1) % TileSize, TileSize);
      assert x == k * TileSize;
    }
  }

  /** A loop state that stopped at x: x is the extent. */
  lemma MaxTileSizeAt(start: int, size: int, x: int)
    requires 0 <= x <= MaxSpriteSize && x % TileSize == 0
    requires x == 0 || start + x - TileSize < size
    requires x == MaxSpriteSize || start + x >= size
    ensures MaxTileSize(start, size) == x
  {
    if x > 0 && x < MaxSpriteSize {
      var d := size - start;
      var k := x / TileSize;
      assert x == k * TileSize;
      QuotRem(k, d + TileSize - 1 - x, TileSize);
    } else if x == MaxSpriteSize && size - start < MaxSpriteSize {
      QuotRem(4, size - start + TileSize - 1 - MaxSpriteSize, TileSize);
    }
  }

  /** `GetMaxTileSize(int startIndex, int size)`: step by 8 until the end is reached or 32. */
  method GetMaxTileSize(startIndex: int, size: int) returns (x: int)
    ensures x == MaxTileSize(startIndex, size)
  {
    x := 0;
    while x + startIndex < startIndex + MaxSpriteSize
      invariant 0 <= x <= MaxSpriteSize && x % TileSize == 0
      invariant x == 0 || startIndex + x - TileSize < size
    {
      if x + startIndex >= size {
        MaxTileSizeAt(startIndex, size, x);
        return x;
      }
      x := x + TileSize;
    }
    MaxTileSizeAt(startIndex, size, x);
  }

  /** The loop of `GetMaxTileSize(Point, Size)` along one axis, left by `break`. */
  method AxisExtent(start: int, size: int) returns (x: int)
    ensures x == MaxTileSize(start, size)
  {
    x := 0;
    while x + start < start + MaxSpriteSize
      invariant 0 <= x <= MaxSpriteSize && x % TileSize == 0
      invariant x == 0 || start + x - TileSize < size
    {
      if x + start >= size {
        break;
      }
      x := x + TileSize;
    }
    MaxTileSizeAt(start, size, x);
  }

  /** `GetMaxTileSize(Point startPoint, Size size)`: the extent along each axis. */
  method GetMaxTileSizeRect(startX: int, startY: int, width: int, height: int) returns (w: int, h: int)
    ensures w == MaxTileSize(startX, width) && h == MaxTileSize(startY, height)
  {
    w := AxisExtent(startX, width);
    h := AxisExtent(startY, height);
  }

  /** A sprite's rectangle: top-left pixel and size in pixels. */
  datatype Rect = Rect(x: nat, y: nat, w: nat, h: nat)

  /** The rectangle holds pixel (px, py). */
  predicate Contains(r: Rect, px: nat, py: nat) {
    r.x <= px < r.x + r.w && r.y <= py < r.y + r.h
  }

  /**
   * The rectangles `ConvertBitmapToSprTiles` visits from (x, y) on: a sprite as large as
   * `GetMaxTileSize` allows, then the next one to the right, or the start of the next strip
   * once the right edge is reached, until the bottom is passed.
   */
  function Layout(width: nat, height: nat, x: nat, y: nat): (rs: seq<Rect>)
    ensures rs == [] <==> x >= width && y >= height
    ensures rs != [] ==> rs[0].x == x && rs[0].y == y
    decreases (if y < height then height - y else 0), (if x < width then width - x else 0)
  {
    if !(x < width || y < height) then []
    else
      var r := Rect(x, y, MaxTileSize(x, width), MaxTileSize(y, height));
      if x + r.w >= width then
        if y + r.h >= height then [r] else [r] + Layout(width, height, 0, y + r.h)
      else [r] + Layout(width, height, x + r.w, y)
  }

  /**
   * Every pixel is in some sprite: from (x, y) on, the layout covers the rest of the
   * current strip and every strip below it.
   */
  lemma {:induction false} LayoutCovers(width: nat, height: nat, x: nat, y: nat, px: nat, py: nat)
    requires px < width && y <= py < height
    requires x <= px || y + MaxTileSize(y, height) <= py
    ensures exists i :: 0 <= i < |Layout(width, height, x, y)| && Contains(Layout(width, height, x, y)[i], px, py)
    decreases (if y < height then height - y else 0), (if x < width then width - x else 0)
  {
    var r := Rect(x, y, MaxTileSize(x, width), MaxTileSize(y, height));
    var x1: nat, y1: nat := if x + r.w < width then x + r.w else 0, if x + r.w < width then y else y + r.h;
    if Contains(r, px, py) {
      LayoutHead(width, height, x, y);
    } else {
      LayoutStep(width, height, x, y, x1, y1);
      var rest := Layout(width, height, x1, y1);
      LayoutCovers(width, height, x1, y1, px, py);
      var j :| 0 <= j < |rest| && Contains(rest[j], px, py);
      assert Layout(width, height, x, y)[j + 1] == rest[j];
    }
  }

  /** Every pixel of the image lies in one of the sprites of the layout from (0, 0). */
  lemma LayoutCoversImage(width: nat, height: nat, px: nat, py: nat)
    requires px < width && py < height
    ensures exists i :: 0 <= i < |Layout(width, height, 0, 0)| && Contains(Layout(width, height, 0, 0)[i], px, py)
  {
    LayoutCovers(width, height, 0, 0, px, py);
  }

  /**
   * Every sprite rectangle is a whole number of tiles, at most 32 pixels a side, and
   * starts inside the image along at least one axis.
   */
  lemma {:induction false} LayoutSizes(width: nat, height: nat, x: nat, y: nat, i: nat)
    requires i < |Layout(width, height, x, y)|
    ensures var r := Layout(width, height, x, y)[i];
      r.w % TileSize == 0 && r.h % TileSize == 0 && r.w <= MaxSpriteSize && r.h <= MaxSpriteSize &&
      (r.x < width || r.y < height)
    decreases (if y < height then height - y else 0), (if x < width then width - x else 0)
  {
    LayoutHead(width, height, x, y);
    if i > 0 {
      var w, h := MaxTileSize(x, width), MaxTileSize(y, height);
      var x1: nat, y1: nat := if x + w < width then x + w else 0, if x + w < width then y else y + h;
      if x + w >= width && y + h >= height {
        LayoutLast(width, height, x, y);
      } else {
        LayoutStep(width, height, x, y, x1, y1);
        LayoutSizes(width, height, x1, y1, i - 1);
      }
    }
  }

  /** A 40x24 image is cut into a 32x24 sprite and an 8x24 sprite. */
  lemma LayoutExample()
    ensures Layout(40, 24, 0, 0) == [Rect(0, 0, 32, 24), Rect(32, 0, 8, 24)]
  {
    assert MaxTileSize(0, 40) == 32 && MaxTileSize(0, 24) == 24 && MaxTileSize(32, 40) == 8;
    assert Layout(40, 24, 32, 0) == [Rect(32, 0, 8, 24)];
  }

  /**
   * The tiles of one sprite: for each tile column (x0 outer) each tile row (y0 inner),
   * as the two `for` loops of `ConvertBitmapToSprTiles` list them.
   */
  function SpriteTiles(img: Image, palette: seq<Color>, r: Rect): seq<Tile> {
    RowMajor((row: nat, col: nat) => TileAt(img, palette, r.x + TileSize * col, r.y + TileSize * row),
      Steps(r.h), Steps(r.w))
  }

  /** A sprite holds at most 4x4 = 16 tiles, (w / 8) * (h / 8) of them. */
  lemma SpriteTileCount(img: Image, palette: seq<Color>, r: Rect)
    requires r.w % TileSize == 0 && r.h % TileSize == 0 && r.w <= MaxSpriteSize && r.h <= MaxSpriteSize
    ensures |SpriteTiles(img, palette, r)| == (r.w / TileSize) * (r.h / TileSize) <= 16
  {
    RowMajorLength((row: nat, col: nat) => TileAt(img, palette, r.x + TileSize * col, r.y + TileSize * row),
      Steps(r.h), Steps(r.w));
    assert Steps(r.w) == r.w / TileSize && Steps(r.h) == r.h / TileSize;
    MulMonotone(r.w / TileSize, 4, r.h / TileSize);
  }

  /** The sprites of a sequence of rectangles, in order. */
  function SpritesOf(img: Image, palette: seq<Color>, rects: seq<Rect>): (s: seq<seq<Tile>>)
    ensures |s| == |rects|
  {
    if rects == [] then [] else [SpriteTiles(img, palette, rects[0])] + SpritesOf(img, palette, rects[1..])
  }

  /** What `ConvertBitmapToSprTiles` returns: one sprite per rectangle of the layout. */
  function Sprites(img: Image): seq<seq<Tile>> {
    SpritesOf(img, Palette.PaletteOf(img), Layout(img.width, img.height, 0, 0))
  }

  /**
   * Tiles are listed column by column: the tile in tile column `col` and tile row `row`
   * of a sprite sits at position `col * (h / 8) + row`.
   */
  lemma SpriteTileAt(img: Image, palette: seq<Color>, r: Rect, col: nat, row: nat)
    requires col < Steps(r.w) && row < Steps(r.h)
    ensures col * Steps(r.h) + row < |SpriteTiles(img, palette, r)|
    ensures SpriteTiles(img, palette, r)[col * Steps(r.h) + row] ==
      TileAt(img, palette, r.x + TileSize * col, r.y + TileSize * row)
  {
    RowMajorAt((row: nat, col: nat) => TileAt(img, palette, r.x + TileSize * col, r.y + TileSize * row),
      Steps(r.h), Steps(r.w), row, col);
  }

  /** A 40x24 image gives two sprites: 12 tiles for the 32x24 one, then 3 for the 8x24 one. */
  lemma SpritesExample(img: Image)
    requires img.width == 40 && img.height == 24
    ensures |Sprites(img)| == 2
    ensures |Sprites(img)[0]| == 12 && |Sprites(img)[1]| == 3
  {
    var palette := Palette.PaletteOf(img);
    LayoutExample();
    SpriteTileCount(img, palette, Rect(0, 0, 32, 24));
    SpriteTileCount(img, palette, Rect(32, 0, 8, 24));
    assert Sprites(img) == [SpriteTiles(img, palette, Rect(0, 0, 32, 24))]
      + SpritesOf(img, palette, [Rect(32, 0, 8, 24)]);
  }

  /**
   * One turn of the sprite loop keeps its invariant: the sprite at (x, y) moves from the part
   * to come to the part done, and (x1, y1) is where the loop goes next.
   */
  lemma SpriteLoopStep(img: Image, palette: seq<Color>, width: nat, height: nat, x: nat, y: nat, x1: nat, y1: nat,
                       done: seq<seq<Tile>>, sprites: seq<seq<Tile>>, total: seq<seq<Tile>>)
    requires x < width || y < height
    requires done + SpritesOf(img, palette, Layout(width, height, x, y)) == total
    requires sprites == done + [SpriteTiles(img, palette, Rect(x, y, MaxTileSize(x, width), MaxTileSize(y, height)))]
    requires x + MaxTileSize(x, width) < width ==> x1 == x + MaxTileSize(x, width) && y1 == y
    requires x + MaxTileSize(x, width) >= width ==> x1 == 0 && y1 == y + MaxTileSize(y, height) < height
    ensures sprites + SpritesOf(img, palette, Layout(width, height, x1, y1)) == total
  {
    var r := Rect(x, y, MaxTileSize(x, width), MaxTileSize(y, height));
    var rest := Layout(width, height, x1, y1);
    LayoutStep(width, height, x, y, x1, y1);
    SpritesOfCons(img, palette, r, rest);
    AppendAssoc(done, [SpriteTiles(img, palette, r)], SpritesOf(img, palette, rest));
  }

  /** The layout from a position inside the image starts with the rectangle there. */
  lemma LayoutHead(width: nat, height: nat, x: nat, y: nat)
    requires x < width || y < height
    ensures |Layout(width, height, x, y)| > 0
    ensures Layout(width, height, x, y)[0] == Rect(x, y, MaxTileSize(x, width), MaxTileSize(y, height))
  {
  }

  /** The layout from the bottom-right sprite holds that sprite alone. */
  lemma LayoutLast(width: nat, height: nat, x: nat, y: nat)
    requires x < width || y < height
    requires x + MaxTileSize(x, width) >= width && y + MaxTileSize(y, height) >= height
    ensures Layout(width, height, x, y) == [Rect(x, y, MaxTileSize(x, width), MaxTileSize(y, height))]
  {
  }

  /** The layout from (x, y): the rectangle there, then the layout from where the loop goes next. */
  lemma LayoutStep(width: nat, height: nat, x: nat, y: nat, x1: nat, y1: nat)
    requires x < width || y < height
    requires x + MaxTileSize(x, width) < width ==> x1 == x + MaxTileSize(x, width) && y1 == y
    requires x + MaxTileSize(x, width) >= width ==> x1 == 0 && y1 == y + MaxTileSize(y, height) < height
    ensures Layout(width, height, x, y) == [Rect(x, y, MaxTileSize(x, width), MaxTileSize(y, height))] + Layout(width, height, x1, y1)
  {
  }

  /** The sprites of a rectangle followed by more rectangles. */
  lemma SpritesOfCons(img: Image, palette: seq<Color>, r: Rect, rest: seq<Rect>)
    ensures SpritesOf(img, palette, [r] + rest) == [SpriteTiles(img, palette, r)] + SpritesOf(img, palette, rest)
  {
    assert ([r] + rest)[1..] == rest;
  }

  /** The last turn of the sprite loop: the sprite at (x, y) was the last one. */
  lemma SpriteLoopLast(img: Image, palette: seq<Color>, width: nat, height: nat, x: nat, y: nat,
                       done: seq<seq<Tile>>, sprites: seq<seq<Tile>>, total: seq<seq<Tile>>)
    requires x < width || y < height
    requires done + SpritesOf(img, palette, Layout(width, height, x, y)) == total
    requires sprites == done + [SpriteTiles(img, palette, Rect(x, y, MaxTileSize(x, width), MaxTileSize(y, height)))]
    requires x + MaxTileSize(x, width) >= width && y + MaxTileSize(y, height) >= height
    ensures sprites == total
  {
    var r := Rect(x, y, MaxTileSize(x, width), MaxTileSize(y, height));
    LayoutLast(width, height, x, y);
    SpritesOfCons(img, palette, r, []);
    AppendAssoc(done, [SpriteTiles(img, palette, r)], []);
  }

  /** The two loops over the tile columns and rows of one sprite. */
  method CollectSprite(img: Image, palette: seq<Color>, r: Rect) returns (tiles: seq<Tile>)
    ensures tiles == SpriteTiles(img, palette, r)
  {
    ghost var f := (row: nat, col: nat) => TileAt(img, palette, r.x + TileSize * col, r.y + TileSize * row);
    tiles := [];
    var x0 := r.x;
    ghost var col := 0;
    while x0 < r.x + r.w
      invariant x0 == r.x + TileSize * col && col <= Steps(r.w)
      invariant tiles == RowMajor(f, Steps(r.h), col)
    {
      StepsBelow(col, r.w);
      ghost var left := tiles;
      var y0 := r.y;
      ghost var row := 0;
      while y0 < r.y + r.h
        invariant y0 == r.y + TileSize * row && row <= Steps(r.h)
        invariant tiles == left + Row(f, col, row)
      {
        StepsBelow(row, r.h);
        var tile := ExtractTileFromImage(img, palette, x0, y0);
        assert tile == f(row, col);
        AppendAssoc(left, Row(f, col, row), [tile]);
        tiles := tiles + [tile];
        y0, row := y0 + TileSize, row + 1;
      }
      StepsReached(row, r.h);
      ScanNextRow(f, Steps(r.h), col, left);
      x0, col := x0 + TileSize, col + 1;
    }
    StepsReached(col, r.w);
  }

  /**
   * `ConvertBitmapToSprTiles`: one sprite per rectangle, moving right by the sprite's width,
   * and at the right edge down by its height and back to x = 0, until the bottom is passed.
   */
  method ConvertBitmapToSprTiles(img: Image) returns (sprites: seq<seq<Tile>>)
    ensures sprites == Sprites(img)
  {
    var palette := Palette.GetPaletteStright(img);
    var width, height := img.width, img.height;
    var x: nat, y: nat := 0, 0;
    ghost var total := SpritesOf(img, palette, Layout(width, height, 0, 0));
    assert total == Sprites(img);
    sprites := [];
    while x < width || y < height
      invariant sprites + SpritesOf(img, palette, Layout(width, height, x, y)) == total
      decreases (if y < height then height - y else 0), (if x < width then width - x else 0)
    {
      ghost var x0, y0, done := x, y, sprites;
      var spriteWidth, spriteHeight := GetMaxTileSizeRect(x, y, width, height);
      var tiles := CollectSprite(img, palette, Rect(x, y, spriteWidth, spriteHeight));
      sprites := sprites + [tiles];
      x := x + spriteWidth;
      if x >= width {
        y := y + spriteHeight;
        if y >= height {
          SpriteLoopLast(img, palette, width, height, x0, y0, done, sprites, total);
          break;
        }
        x := 0;
      }
      SpriteLoopStep(img, palette, width, height, x0, y0, x, y, done, sprites, total);
    }
  }
}
