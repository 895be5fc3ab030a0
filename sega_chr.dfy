/**
 * Reading a CHR file back into a bitmap (`ConvertChrToBmp` of
 * RetroLib/Platforms/SegaGenesis.cs) and the tile layout its size error suggests
 * (`CalculateTileLayout`).
 *
 * The file is its sequence of bytes; the bitmap that `Bitmap.Save` would store is the
 * `Bitmap` object handed back in `Some`.
 */
module SegaChr {
  import opened Wrappers
  import opened Arith
  import opened Drawing
  import opened SegaTiles
  import opened SegaBinary

  /** `SegaImgType`: what a CHR file holds. */
  datatype SegaImgType = Screen | Sprite | Window | Font

  // ---------------------------------------------------------------- suggested layout

  /** `(int)Math.Sqrt(n)`: the integer square root, rounded down. */
  function FloorSqrt(n: nat): (r: nat)
    ensures r * r <= n < (r + 1) * (r + 1)
  {
    if n == 0 then 0
    else
      var s := FloorSqrt(n - 1);
      if (s + 1) * (s + 1) <= n then s + 1 else s
  }

  /** The largest divisor of n among 1 .. m, and 1 when m is 0. */
  function LargestDivisor(n: nat, m: nat): (d: nat)
    ensures 1 <= d && (m >= 1 ==> d <= m) && n % d == 0
    ensures forall e :: d < e <= m ==> n % e != 0
  {
    if m <= 1 then 1
    else if n % m == 0 then m
    else LargestDivisor(n, m - 1)
  }

  /** The (width, height) in tiles that `CalculateTileLayout` suggests for a file of this size. */
  function TileLayout(fileSize: nat): (nat, nat) {
    var tileNum := fileSize / TileBytesCount;
    var w := LargestDivisor(tileNum, FloorSqrt(tileNum));
    (w, tileNum / w)
  }

  /**
   * `CalculateTileLayout`: try every width up to the square root of the tile count and keep
   * the last one that divides it.
   */
  method CalculateTileLayout(fileSize: nat) returns (bestWidth: int, bestHeight: int)
    ensures (bestWidth, bestHeight) == TileLayout(fileSize)
  {
    var tileNum := fileSize / TileBytesCount;
    var maxWidth := FloorSqrt(tileNum);
    bestWidth, bestHeight := 1, tileNum;
    var width := 1;
    while width <= maxWidth
      invariant 1 <= width <= maxWidth + 1 || (width == 1 && maxWidth == 0)
      invariant bestWidth == LargestDivisor(tileNum, width - 1) && bestHeight == tileNum / bestWidth
    {
      LargestDivisorStep(tileNum, width);
      if tileNum % width == 0 {
        var height := tileNum / width;
        DivExact(tileNum, width);
        if width * height == tileNum {
          bestWidth, bestHeight := width, height;
        }
      }
      width := width + 1;
    }
  }

  /** Widening the search by one keeps the old best unless the new width divides. */
  lemma LargestDivisorStep(n: nat, m: nat)
    requires 1 <= m
    ensures LargestDivisor(n, m) == if n % m == 0 then m else LargestDivisor(n, m - 1)
  {
  }

  /** A divisor times the quotient gives the number back. */
  lemma DivExact(n: nat, d: nat)
    requires 0 < d && n % d == 0
    ensures d * (n / d) == n
  {
  }

  /**
   * The suggested layout holds every tile of the file: width times height is the tile count
   * and the width is at most the height. An empty file (fewer than 32 bytes) gets 1 by 0.
   */
  lemma TileLayoutFactors(fileSize: nat)
    ensures var n := fileSize / TileBytesCount;
      (n == 0 ==> TileLayout(fileSize) == (1, 0)) &&
      (n > 0 ==> (TileLayout(fileSize).0 * TileLayout(fileSize).1 == n &&
                  1 <= TileLayout(fileSize).0 <= TileLayout(fileSize).1))
  {
    var n := fileSize / TileBytesCount;
    if n > 0 {
      var r := FloorSqrt(n);
      var (w, h) := TileLayout(fileSize);
      SqrtPositive(n);
      DivExact(n, w);
      SquareBelow(w, r, n);
      NarrowSide(w, h, n);
    }
  }

  lemma SqrtPositive(n: nat)
    requires n > 0
    ensures FloorSqrt(n) >= 1
  {
  }

  /** Of two sides whose product is n, one whose square is at most n is the shorter. */
  lemma NarrowSide(w: nat, h: nat, n: nat)
    requires w * h == n && w * w <= n
    ensures w <= h
  {
    if h < w {
      MulMonotone(h + 1, w, w);
    }
  }

  lemma SquareBelow(w: nat, r: nat, n: nat)
    requires w <= r && r * r <= n
    ensures w * w <= n
  {
    MulMonotone(w, r, w);
    MulMonotone(w, r, r);
  }

  /**
   * The suggested width is the squarest: no wider divisor of the tile count has its square
   * within the count.
   */
  lemma TileLayoutSquarest(fileSize: nat, d: nat)
    requires var n := fileSize / TileBytesCount; TileLayout(fileSize).0 < d && d * d <= n
    ensures (fileSize / TileBytesCount) % d != 0
  {
    var n := fileSize / TileBytesCount;
    var r := FloorSqrt(n);
    var w := LargestDivisor(n, r);
    assert TileLayout(fileSize).0 == w;
    if r < d {
      MulMonotone(r + 1, d, r + 1);
      MulMonotone(r + 1, d, d);
      assert false;
    }
    assert w < d <= r;
  }

  // ---------------------------------------------------------------- sprite walk

  /**
   * The walk goes down a column of tiles while `bmpY + 8 < height`, so a column holds this
   * many tiles: the height in tiles, rounded up.
   */
  function Rows(height: nat): nat {
    (height + TileSize - 1) / TileSize
  }

  /** A column of R tiles reaches the bottom edge, and one tile fewer does not. */
  lemma RowsBounds(height: nat)
    ensures TileSize * (Rows(height) - 1) < height <= TileSize * Rows(height) || height == 0
    ensures height > 0 ==> Rows(height) > 0
  {
    QuotRem(Rows(height), (height + TileSize - 1) % TileSize, TileSize);
  }

  /** Row s of a column is its last exactly when the next tile would start at or below the bottom edge. */
  lemma LastRow(height: nat, s: nat)
    requires s < Rows(height)
    ensures TileSize * s + TileSize < height ==> s + 1 < Rows(height)
    ensures TileSize * s + TileSize >= height ==> s + 1 == Rows(height)
  {
    RowsBounds(height);
  }

  /** The tile the walk paints over pixel (px, py): columns of R tiles, left to right. */
  function Owner(px: nat, py: nat, rows: nat): nat {
    (px / TileSize) * rows + py / TileSize
  }

  /** The position of pixel (px, py) among all SetPixel calls of the walk. */
  function Stamp(px: nat, py: nat, rows: nat): nat {
    64 * Owner(px, py, rows) + (TileSize * (py % TileSize) + px % TileSize)
  }

  /** Tile k's top-left corner: column k / R, row k % R. */
  lemma SlotOf(k: nat, rows: nat, x: nat, y: nat)
    requires rows > 0 && x < TileSize && y < TileSize
    ensures var px, py := TileSize * (k / rows) + x, TileSize * (k % rows) + y;
      px / TileSize == k / rows && px % TileSize == x &&
      py / TileSize == k % rows && py % TileSize == y &&
      Owner(px, py, rows) == k && Stamp(px, py, rows) == 64 * k + (TileSize * y + x)
  {
    QuotRem(k / rows, x, TileSize);
    QuotRem(k % rows, y, TileSize);
  }

  /** Distinct pixels of a column of R tiles are painted at distinct steps. */
  lemma StampUnique(px: nat, py: nat, qx: nat, qy: nat, rows: nat)
    requires py < TileSize * rows && qy < TileSize * rows
    requires Stamp(px, py, rows) == Stamp(qx, qy, rows)
    ensures px == qx && py == qy
  {
    DigitsEqual(Owner(px, py, rows), TileSize * (py % TileSize) + px % TileSize,
      Owner(qx, qy, rows), TileSize * (qy % TileSize) + qx % TileSize, 64);
    DigitsEqual(py % TileSize, px % TileSize, qy % TileSize, qx % TileSize, TileSize);
    DigitsEqual(px / TileSize, py / TileSize, qx / TileSize, qy / TileSize, rows);
  }

  /**
   * Every pixel of the bitmap lies in the slot of the tile that owns it: the slot of tile
   * `Owner(px, py)` at offset (px % 8, py % 8).
   */
  lemma OwnerSlot(px: nat, py: nat, rows: nat)
    requires py < TileSize * rows
    ensures var k := Owner(px, py, rows);
      px == TileSize * (k / rows) + px % TileSize && py == TileSize * (k % rows) + py % TileSize
  {
    var k := Owner(px, py, rows);
    QuotRem(px / TileSize, py / TileSize, rows);
  }

  /** The colour tile `Owner(px, py)` gives pixel (px, py), or transparent where no tile does. */
  function Painted(tiles: seq<Tile>, palette: seq<Color>, rows: nat, px: nat, py: nat): Color {
    var k := Owner(px, py, rows);
    if k < |tiles| && 0 <= tiles[k][py % TileSize][px % TileSize] < |palette|
    then palette[tiles[k][py % TileSize][px % TileSize]]
    else Transparent
  }

  /**
   * Tile k can be painted: its slot lies inside the bitmap and each of its cells indexes the
   * palette. Otherwise `palette.ElementAt` or `SetPixel` throws ArgumentOutOfRangeException.
   */
  predicate Drawable(tiles: seq<Tile>, palette: seq<Color>, width: nat, height: nat, k: nat)
    requires k < |tiles|
  {
    var rows := Rows(height);
    rows > 0 && TileSize * (k / rows) + TileSize <= width && TileSize * (k % rows) + TileSize <= height &&
    forall y, x :: 0 <= y < TileSize && 0 <= x < TileSize ==> 0 <= tiles[k][y][x] < |palette|
  }

  /** The first t SetPixel calls of the walk have been made, and no other pixel was touched. */
  ghost predicate PaintedUpTo(a: array2<Color>, tiles: seq<Tile>, palette: seq<Color>, rows: nat, t: nat)
    reads a
  {
    forall py, px :: 0 <= py < a.Length0 && 0 <= px < a.Length1 ==>
      a[py, px] == if Stamp(px, py, rows) < t then Painted(tiles, palette, rows, px, py) else Transparent
  }

  /** A column ends when the next tile would start at or below the bottom edge. */
  lemma WalkStep(k: nat, height: nat)
    requires 0 < height
    ensures Rows(height) > 0
    ensures TileSize * (k % Rows(height)) + TileSize < height ==>
      (k + 1) % Rows(height) == k % Rows(height) + 1 && (k + 1) / Rows(height) == k / Rows(height)
    ensures TileSize * (k % Rows(height)) + TileSize >= height ==>
      (k + 1) % Rows(height) == 0 && (k + 1) / Rows(height) == k / Rows(height) + 1
  {
    var rows := Rows(height);
    RowsBounds(height);
    var q, s := k / rows, k % rows;
    assert k == q * rows + s;
    LastRow(height, s);
    if TileSize * s + TileSize < height {
      assert k + 1 == q * rows + (s + 1);
      QuotRem(q, s + 1, rows);
    } else {
      assert k + 1 == (q + 1) * rows + 0;
      QuotRem(q + 1, 0, rows);
    }
  }

  /**
   * The sprite branch of `ConvertChrToBmp`: each tile in turn is painted into its slot,
   * going down a column and then on to the next column; the first pixel that cannot be
   * painted ends the walk with ArgumentOutOfRangeException.
   */
  method DrawSprites(tiles: seq<Tile>, palette: seq<Color>, bmp: Bitmap) returns (r: Result<()>)
    requires bmp.Valid()
    requires forall py, px :: 0 <= py < bmp.height && 0 <= px < bmp.width ==> bmp.pixels[py, px] == Transparent
    modifies bmp.pixels
    ensures r.Err? <==> exists k :: 0 <= k < |tiles| && !Drawable(tiles, palette, bmp.width, bmp.height, k)
    ensures r.Err? ==> r.error == ArgumentOutOfRangeException
    ensures r.Ok? ==> forall py, px :: 0 <= py < bmp.height && 0 <= px < bmp.width ==>
      bmp.pixels[py, px] == Painted(tiles, palette, Rows(bmp.height), px, py)
  {
    var rows := Rows(bmp.height);
    var bmpX, bmpY := 0, 0;
    for k := 0 to |tiles|
      invariant bmpX == TileSize * (k / rows) && bmpY == TileSize * (k % rows)
      invariant forall j :: 0 <= j < k ==> Drawable(tiles, palette, bmp.width, bmp.height, j)
      invariant PaintedUpTo(bmp.pixels, tiles, palette, rows, 64 * k)
    {
      var ok := PaintTile(tiles, palette, bmp, k, bmpX, bmpY);
      if !ok {
        return Err(ArgumentOutOfRangeException);
      }
      WalkStep(k, bmp.height);
      if bmpY + TileSize < bmp.height {
        bmpY := bmpY + TileSize;
      } else {
        bmpY := 0;
        bmpX := bmpX + TileSize;
      }
    }
    forall py, px | 0 <= py < bmp.height && 0 <= px < bmp.width
      ensures bmp.pixels[py, px] == Painted(tiles, palette, rows, px, py)
    {
      if Stamp(px, py, rows) >= 64 * |tiles| {
        StampBeyond(px, py, rows, |tiles|);
      }
    }
    return Ok(());
  }

  /** Pixels painted after the last tile have no tile: the walk leaves them transparent. */
  lemma StampBeyond(px: nat, py: nat, rows: nat, n: nat)
    requires Stamp(px, py, rows) >= 64 * n
    ensures Owner(px, py, rows) >= n
  {
  }

  /** One tile of the walk: its 64 pixels, row by row, or false at the first that fails. */
  method PaintTile(tiles: seq<Tile>, palette: seq<Color>, bmp: Bitmap, k: nat, bmpX: nat, bmpY: nat)
    returns (ok: bool)
    requires bmp.Valid() && k < |tiles|
    requires bmpX == TileSize * (k / Rows(bmp.height)) && bmpY == TileSize * (k % Rows(bmp.height))
    requires PaintedUpTo(bmp.pixels, tiles, palette, Rows(bmp.height), 64 * k)
    modifies bmp.pixels
    ensures ok <==> Drawable(tiles, palette, bmp.width, bmp.height, k)
    ensures ok ==> PaintedUpTo(bmp.pixels, tiles, palette, Rows(bmp.height), 64 * k + 64)
  {
    var tile := tiles[k];
    for y := 0 to TileSize
      invariant PaintedUpTo(bmp.pixels, tiles, palette, Rows(bmp.height), 64 * k + TileSize * y)
      invariant y > 0 ==> bmpX + TileSize <= bmp.width && bmpY + y <= bmp.height
      invariant forall y', x' :: 0 <= y' < y && 0 <= x' < TileSize ==> 0 <= tile[y'][x'] < |palette|
    {
      for x := 0 to TileSize
        invariant PaintedUpTo(bmp.pixels, tiles, palette, Rows(bmp.height), 64 * k + TileSize * y + x)
        invariant x > 0 ==> bmpX + x <= bmp.width && bmpY + y < bmp.height
        invariant forall x' :: 0 <= x' < x ==> 0 <= tile[y][x'] < |palette|
      {
        var c := tile[y][x];
        if c < 0 || c >= |palette| || bmpX + x >= bmp.width || bmpY + y >= bmp.height {
          return false;
        }
        PaintPixel(tiles, palette, bmp, k, x, y);
      }
    }
    return true;
  }

  /** One SetPixel of the walk: pixel (x, y) of tile k, step 64k + 8y + x. */
  method PaintPixel(tiles: seq<Tile>, palette: seq<Color>, bmp: Bitmap, k: nat, x: nat, y: nat)
    requires bmp.Valid() && k < |tiles| && x < TileSize && y < TileSize
    requires 0 <= tiles[k][y][x] < |palette|
    requires Rows(bmp.height) > 0
    requires TileSize * (k / Rows(bmp.height)) + x < bmp.width && TileSize * (k % Rows(bmp.height)) + y < bmp.height
    requires PaintedUpTo(bmp.pixels, tiles, palette, Rows(bmp.height), 64 * k + TileSize * y + x)
    modifies bmp.pixels
    ensures PaintedUpTo(bmp.pixels, tiles, palette, Rows(bmp.height), 64 * k + TileSize * y + x + 1)
  {
    var rows := Rows(bmp.height);
    var t := 64 * k + TileSize * y + x;
    var px, py := TileSize * (k / rows) + x, TileSize * (k % rows) + y;
    SlotOf(k, rows, x, y);
    assert Painted(tiles, palette, rows, px, py) == palette[tiles[k][y][x]];
    bmp.pixels[py, px] := palette[tiles[k][y][x]];
    forall qy, qx | 0 <= qy < bmp.pixels.Length0 && 0 <= qx < bmp.pixels.Length1
      ensures bmp.pixels[qy, qx] ==
        if Stamp(qx, qy, rows) < t + 1 then Painted(tiles, palette, rows, qx, qy) else Transparent
    {
      if qy != py || qx != px {
        if Stamp(qx, qy, rows) == t {
          StampUnique(qx, qy, px, py, rows);
        }
        assert bmp.pixels[qy, qx] == old(bmp.pixels[qy, qx]);
      }
    }
  }

  /**
   * `ConvertChrToBmp(palette, size, file, out, segaImgType)` on the bytes of the file: a size
   * check, the bitmap, and for sprites the walk. `Some(bmp)` is the bitmap saved; a screen,
   * window or font file produces nothing.
   */
  method ConvertChrToBmp(palette: seq<Color>, width: int, height: int, data: seq<Byte>, segaImgType: SegaImgType)
    returns (r: Result<Option<Bitmap>>)
    ensures r.Err? && r.error == ArgumentException <==>
      SizeMismatch(width, height, |data|) || width <= 0 || height <= 0
    ensures r.Err? ==> r.error == ArgumentException || r.error == ArgumentOutOfRangeException
    ensures r.Err? && r.error == ArgumentOutOfRangeException <==>
      !SizeMismatch(width, height, |data|) && width > 0 && height > 0 && segaImgType == Sprite &&
      exists k :: 0 <= k < |UnpackTiles(data, width, height)| &&
        !Drawable(UnpackTiles(data, width, height), palette, width, height, k)
    ensures !SizeMismatch(width, height, |data|) && width > 0 && height > 0 && segaImgType != Sprite ==>
      r == Ok(None)
    ensures r.Ok? && r.value.Some? <==>
      !SizeMismatch(width, height, |data|) && width > 0 && height > 0 && segaImgType == Sprite &&
      forall k :: 0 <= k < |UnpackTiles(data, width, height)| ==>
        Drawable(UnpackTiles(data, width, height), palette, width, height, k)
    ensures r.Ok? && r.value.Some? ==>
      var bmp := r.value.value; var tiles := UnpackTiles(data, width, height);
      fresh(bmp) && bmp.Valid() && bmp.width == width && bmp.height == height &&
      forall py, px :: 0 <= py < height && 0 <= px < width ==>
        bmp.pixels[py, px] == Painted(tiles, palette, Rows(height), px, py)
  {
    if SizeMismatch(width, height, |data|) {
      return Err(ArgumentException);
    }
    if width <= 0 || height <= 0 {
      return Err(ArgumentException);
    }
    var bmp := new Bitmap(width, height);
    if segaImgType == Screen {
      var tiles := ReadTilesFromBinary(data, width, height);
      return Ok(None);
    } else if segaImgType == Sprite {
      var tiles := ReadTilesFromBinary(data, width, height);
      var drawn := DrawSprites(tiles, palette, bmp);
      if drawn.Err? {
        return Err(drawn.error);
      }
      return Ok(Some(bmp));
    }
    return Ok(None);
  }

  /**
   * The size check of `ConvertChrToBmp`: the file is neither W * H / 2 bytes (C# division)
   * nor at most 512 bytes long.
   */
  predicate SizeMismatch(width: int, height: int, fileLength: nat) {
    fileLength != CsDiv(width * height, 2) && fileLength > 512
  }
}
