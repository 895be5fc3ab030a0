/**
 * The binary formats of RetroLib/Platforms/SegaGenesis.cs: the 4-bit-per-pixel tile
 * stream (`WriteTilesToBinary`, read back by `ReadTilesFromBinary`), the big-endian
 * 16-bit tile map and palette streams (`WriteTileMapToBinary`, `WritePaletteToBinary`)
 * and the header of a BKG file.
 *
 * Files are left out: a writer is the sequence of bytes it has been given, a reader the
 * sequence of bytes of the file.
 */
module SegaBinary {
  import opened Wrappers
  import opened BinaryIO
  import opened Sequences
  import opened SegaTiles
  import opened Arith

  // ---------------------------------------------------------------- tile stream

  /** Bytes per tile: 8 rows of 4 bytes, two pixels a byte. */
  const TileBytesCount := 32

  /** C#'s `|` on non-negative values, bit by bit from the lowest. */
  function BitOr(a: nat, b: nat): nat
    decreases a + b
  {
    if a == 0 && b == 0 then 0
    else 2 * BitOr(a / 2, b / 2) + (if a % 2 == 1 || b % 2 == 1 then 1 else 0)
  }

  function Pow2(k: nat): nat {
    if k == 0 then 1 else 2 * Pow2(k - 1)
  }

  /** The OR of two k-bit values is a k-bit value. */
  lemma {:induction false} BitOrBound(a: nat, b: nat, k: nat)
    requires a < Pow2(k) && b < Pow2(k)
    ensures BitOr(a, b) < Pow2(k)
  {
    if k > 0 && (a != 0 || b != 0) {
      BitOrBound(a / 2, b / 2, k - 1);
    }
  }

  /** A value shifted left by k bits ORed with a k-bit value is their sum: no bits overlap. */
  lemma {:induction false} BitOrDisjoint(hi: nat, lo: nat, k: nat)
    requires lo < Pow2(k)
    ensures BitOr(hi * Pow2(k), lo) == hi * Pow2(k) + lo
  {
    if k == 0 {
      BitOrZero(hi);
    } else {
      var h := hi * Pow2(k - 1);
      assert hi * Pow2(k) == 2 * h;
      BitOrDisjoint(hi, lo / 2, k - 1);
      if h != 0 || lo != 0 {
        assert (2 * h) / 2 == h && (2 * h) % 2 == 0;
      }
    }
  }

  lemma {:induction false} BitOrZero(a: nat)
    ensures BitOr(a, 0) == a
  {
    if a != 0 {
      BitOrZero(a / 2);
    }
  }

  /**
   * `(byte)((hi << 4) | lo)`: the low byte of the 32-bit OR. Its high nibble is the low
   * nibble of `hi`; `lo` lands unshifted, so bits of `lo` above its low nibble, or a
   * negative `lo`, spill into the high nibble.
   */
  function PackPair(hi: int, lo: int): Byte {
    var a, b := (hi % 16) * 16, lo % 256;
    BitOrBound(a, b, 8);
    BitOr(a, b)
  }

  /** For pixels in 0..15 the byte is the even pixel in the high nibble and the odd one in the low. */
  lemma PackPairNibbles(hi: int, lo: int)
    requires 0 <= hi < 16 && 0 <= lo < 16
    ensures PackPair(hi, lo) == hi * 16 + lo
    ensures PackPair(hi, lo) / 16 == hi && PackPair(hi, lo) % 16 == lo
  {
    assert Pow2(4) == 16 by {
      assert Pow2(1) == 2 && Pow2(2) == 4 && Pow2(3) == 8;
    }
    assert hi % 16 == hi && lo % 256 == lo;
    BitOrDisjoint(hi, lo, 4);
    assert PackPair(hi, lo) == BitOr(hi * 16, lo);
    QuotRem(hi, lo, 16);
  }

  /** The four bytes of one tile row: pixel pairs (0, 1), (2, 3), (4, 5), (6, 7). */
  function RowBytes(r: seq<int>): (bs: seq<Byte>)
    requires |r| == TileSize
    ensures |bs| == TileSize / 2
  {
    seq(TileSize / 2, c requires 0 <= c < TileSize / 2 => PackPair(r[2 * c], r[2 * c + 1]))
  }

  /** The rows 0 .. n - 1 of a tile. */
  function RowsBytes(t: Tile, n: nat): (bs: seq<Byte>)
    requires n <= TileSize
    ensures |bs| == 4 * n
  {
    if n == 0 then [] else RowsBytes(t, n - 1) + RowBytes(t[n - 1])
  }

  /** The 32 bytes of a tile, row by row. */
  function TileBytes(t: Tile): (bs: seq<Byte>)
    ensures |bs| == TileBytesCount
  {
    RowsBytes(t, TileSize)
  }

  /** The bytes of a list of tiles, one tile after another. */
  function TilesBytes(ts: seq<Tile>): (bs: seq<Byte>)
    ensures |bs| == TileBytesCount * |ts|
  {
    if ts == [] then [] else TilesBytes(ts[..|ts| - 1]) + TileBytes(ts[|ts| - 1])
  }

  /** The tiles of a list of lists, in order: what the nested overloads hand down one list at a time. */
  function Flatten<T>(ss: seq<seq<T>>): seq<T> {
    if ss == [] then [] else Flatten(ss[..|ss| - 1]) + ss[|ss| - 1]
  }

  /** Byte c of row `row` is at offset 4 * row + c of the tile. */
  lemma {:induction false} RowsBytesAt(t: Tile, n: nat, row: nat, c: nat)
    requires n <= TileSize && row < n && c < TileSize / 2
    ensures RowsBytes(t, n)[4 * row + c] == PackPair(t[row][2 * c], t[row][2 * c + 1])
  {
    if row < n - 1 {
      RowsBytesAt(t, n - 1, row, c);
    }
  }

  /** Byte `off` of tile k is at offset 32 * k + off of the stream. */
  lemma {:induction false} TilesBytesAt(ts: seq<Tile>, k: nat, off: nat)
    requires k < |ts| && off < TileBytesCount
    ensures TileBytesCount * k + off < |TilesBytes(ts)|
    ensures TilesBytes(ts)[TileBytesCount * k + off] == TileBytes(ts[k])[off]
  {
    var n := |ts| - 1;
    if k < n {
      TilesBytesAt(ts[..n], k, off);
    }
  }

  /** Writing several lists is writing their concatenation. */
  lemma {:induction false} TilesBytesAppend(a: seq<Tile>, b: seq<Tile>)
    ensures TilesBytes(a + b) == TilesBytes(a) + TilesBytes(b)
    decreases |b|
  {
    if b != [] {
      var n := |b| - 1;
      assert (a + b)[..|a + b| - 1] == a + b[..n];
      TilesBytesAppend(a, b[..n]);
    } else {
      assert a + b == a;
    }
  }

  /** The row loop of `WriteTilesToBinary`: `j` steps by two, one byte per pair. */
  method WriteTileRow(r: seq<int>, writer: ByteWriter)
    requires |r| == TileSize
    modifies writer
    ensures writer.bytes == old(writer.bytes) + RowBytes(r)
  {
    var j := 0;
    while j < TileSize
      invariant 0 <= j <= TileSize && j % 2 == 0
      invariant writer.bytes == old(writer.bytes) + RowBytes(r)[..j / 2]
    {
      var combinedValue := PackPair(r[j], r[j + 1]);
      assert RowBytes(r)[..j / 2 + 1] == RowBytes(r)[..j / 2] + [combinedValue];
      writer.Write(combinedValue);
      j := j + 2;
    }
    assert RowBytes(r)[..TileSize / 2] == RowBytes(r);
  }

  /** `WriteTilesToBinary(List<int[,]>, BinaryWriter)`: 32 bytes per tile, in list order. */
  method WriteTilesToBinary(tiles: seq<Tile>, writer: ByteWriter)
    modifies writer
    ensures writer.bytes == old(writer.bytes) + TilesBytes(tiles)
  {
    for k := 0 to |tiles|
      invariant writer.bytes == old(writer.bytes) + TilesBytes(tiles[..k])
    {
      var tile := tiles[k];
      ghost var before := writer.bytes;
      for i := 0 to TileSize
        invariant writer.bytes == before + RowsBytes(tile, i)
      {
        WriteTileRow(tile[i], writer);
      }
      assert tiles[..k + 1][..k] == tiles[..k];
    }
    assert tiles[..|tiles|] == tiles;
  }

  /** `WriteTilesToBinary(List<List<int[,]>>, BinaryWriter)`: each list in turn. */
  method WriteTileListsToBinary(lists: seq<seq<Tile>>, writer: ByteWriter)
    modifies writer
    ensures writer.bytes == old(writer.bytes) + TilesBytes(Flatten(lists))
  {
    for k := 0 to |lists|
      invariant writer.bytes == old(writer.bytes) + TilesBytes(Flatten(lists[..k]))
    {
      WriteTilesToBinary(lists[k], writer);
      assert lists[..k + 1][..k] == lists[..k];
      TilesBytesAppend(Flatten(lists[..k]), lists[k]);
    }
    assert lists[..|lists|] == lists;
  }

  /**
   * The pixel that `ReadTilesFromBinary` stores from byte p: its high nibble for an even
   * column, its low nibble for an odd one, and 0 when the file has ended.
   */
  function UnpackCell(data: seq<Byte>, p: nat, high: bool): (v: int)
    ensures 0 <= v < 16
  {
    if p < |data| then (if high then data[p] / 16 else data[p] % 16) else 0
  }

  /** Tile k of the stream: pixel (row, col) comes from byte 32k + 4row + col/2. */
  function UnpackTile(data: seq<Byte>, k: nat): Tile {
    seq(TileSize, row requires 0 <= row < TileSize =>
      seq(TileSize, col requires 0 <= col < TileSize =>
        UnpackCell(data, TileBytesCount * k + 4 * row + col / 2, col % 2 == 0)))
  }

  /** `size.Width / TILE_SIZE`: C#'s division truncates toward zero. */
  function CsDiv(a: int, b: nat): int
    requires b > 0
  {
    if a >= 0 then a / b else -((-a) / b)
  }

  /** `tilesPerRow * tilesPerColumn`: the number of tiles the reader produces, when positive. */
  function TileCount(width: int, height: int): int {
    CsDiv(width, TileSize) * CsDiv(height, TileSize)
  }

  /** What `ReadTilesFromBinary` returns. */
  function UnpackTiles(data: seq<Byte>, width: int, height: int): (ts: seq<Tile>)
    ensures |ts| == if TileCount(width, height) < 0 then 0 else TileCount(width, height)
  {
    var n := if TileCount(width, height) < 0 then 0 else TileCount(width, height);
    seq(n, k requires 0 <= k < n => UnpackTile(data, k))
  }

  /** Every unpacked cell is a 4-bit value, and cells past the end of the file are 0. */
  lemma UnpackedCells(data: seq<Byte>, width: int, height: int, k: nat, row: nat, col: nat)
    requires k < |UnpackTiles(data, width, height)| && row < TileSize && col < TileSize
    ensures 0 <= UnpackTiles(data, width, height)[k][row][col] < 16
    ensures TileBytesCount * k + 4 * row + col / 2 >= |data| ==> UnpackTiles(data, width, height)[k][row][col] == 0
  {
  }

  /** Unpacking packed tiles whose pixels are 4-bit values gives the tiles back. */
  lemma UnpackPacked(ts: seq<Tile>, k: nat)
    requires forall j, row, col :: 0 <= j < |ts| && 0 <= row < TileSize && 0 <= col < TileSize ==> 0 <= ts[j][row][col] < 16
    requires k < |ts|
    ensures UnpackTile(TilesBytes(ts), k) == ts[k]
  {
    var u, t := UnpackTile(TilesBytes(ts), k), ts[k];
    forall row | 0 <= row < TileSize
      ensures u[row] == t[row]
    {
      forall col | 0 <= col < TileSize
        ensures u[row][col] == t[row][col]
      {
        UnpackPackedCell(ts, k, row, col);
      }
    }
  }

  lemma UnpackPackedCell(ts: seq<Tile>, k: nat, row: nat, col: nat)
    requires k < |ts| && row < TileSize && col < TileSize
    requires 0 <= ts[k][row][2 * (col / 2)] < 16 && 0 <= ts[k][row][2 * (col / 2) + 1] < 16
    ensures UnpackTile(TilesBytes(ts), k)[row][col] == ts[k][row][col]
  {
    var data, t, c := TilesBytes(ts), ts[k], col / 2;
    var p := TileBytesCount * k + (4 * row + c);
    assert UnpackTile(data, k)[row][col] == UnpackCell(data, p, col % 2 == 0);
    TilesBytesAt(ts, k, 4 * row + c);
    RowsBytesAt(t, TileSize, row, c);
    assert data[p] == PackPair(t[row][2 * c], t[row][2 * c + 1]);
    var hi, lo := t[row][2 * c], t[row][2 * c + 1];
    UnpackByte(data, p, hi, lo);
    var v := UnpackCell(data, p, col % 2 == 0);
    assert v == if col % 2 == 0 then hi else lo;
    PairCell(t[row], col, hi, lo, v);
  }

  /** The cell of column `col` is the high member of its pair for an even column, the low one otherwise. */
  lemma PairCell(r: seq<int>, col: nat, hi: int, lo: int, v: int)
    requires |r| == TileSize && col < TileSize
    requires hi == r[2 * (col / 2)] && lo == r[2 * (col / 2) + 1]
    requires v == if col % 2 == 0 then hi else lo
    ensures v == r[col]
  {
  }

  /** Both nibbles of a packed byte read back. */
  lemma UnpackByte(data: seq<Byte>, p: nat, hi: int, lo: int)
    requires 0 <= hi < 16 && 0 <= lo < 16
    requires p < |data| && data[p] == PackPair(hi, lo)
    ensures UnpackCell(data, p, true) == hi && UnpackCell(data, p, false) == lo
  {
    PackPairNibbles(hi, lo);
  }

  /**
   * The round trip of the tile stream: a file of (W / 8) * (H / 8) packed 4-bit tiles
   * reads back as those tiles.
   */
  lemma UnpackRoundTrip(ts: seq<Tile>, width: int, height: int)
    requires forall j, row, col :: 0 <= j < |ts| && 0 <= row < TileSize && 0 <= col < TileSize ==> 0 <= ts[j][row][col] < 16
    requires TileCount(width, height) == |ts|
    ensures UnpackTiles(TilesBytes(ts), width, height) == ts
  {
    forall k | 0 <= k < |ts|
      ensures UnpackTiles(TilesBytes(ts), width, height)[k] == ts[k]
    {
      UnpackPacked(ts, k);
    }
  }

  /** The row loop of `ReadTilesFromBinary`: `col` steps by two, one byte per pair while the file lasts. */
  method ReadTileRow(data: seq<Byte>, pos0: nat, k: nat, row: nat) returns (cells: seq<int>, pos: nat)
    requires row < TileSize && pos0 == Min(|data|, TileBytesCount * k + 4 * row)
    ensures |cells| == TileSize && pos == Min(|data|, TileBytesCount * k + 4 * row + 4)
    ensures forall col :: 0 <= col < TileSize ==> cells[col] == UnpackTile(data, k)[row][col]
  {
    var base := TileBytesCount * k + 4 * row;
    cells := seq(TileSize, _ => 0);
    pos := pos0;
    var col := 0;
    while col < TileSize
      invariant 0 <= col <= TileSize && col % 2 == 0 && |cells| == TileSize
      invariant pos == Min(|data|, base + col / 2)
      invariant forall c :: 0 <= c < col ==> cells[c] == UnpackCell(data, base + c / 2, c % 2 == 0)
      invariant forall c :: col <= c < TileSize ==> cells[c] == 0
    {
      if pos < |data| {
        var byteData := data[pos];
        pos := pos + 1;
        var firstPixel := (byteData / 16) % 16;
        var secondPixel := byteData % 16;
        cells := cells[col := firstPixel];
        if col + 1 < TileSize {
          cells := cells[col + 1 := secondPixel];
        }
      }
      col := col + 2;
    }
  }

  /**
   * `ReadTilesFromBinary(data, size)`: (W / 8) * (H / 8) tiles, each filled row by row from
   * the next bytes, high nibble first; once the data runs out the remaining cells stay 0.
   */
  method ReadTilesFromBinary(data: seq<Byte>, width: int, height: int) returns (tiles: seq<Tile>)
    ensures tiles == UnpackTiles(data, width, height)
  {
    var tilesPerRow := CsDiv(width, TileSize);
    var tilesPerColumn := CsDiv(height, TileSize);
    var totalTiles := tilesPerRow * tilesPerColumn;
    tiles := [];
    var pos: nat := 0;
    var tileIndex := 0;
    while tileIndex < totalTiles
      invariant 0 <= tileIndex && (tileIndex <= totalTiles || tileIndex == 0)
      invariant pos == Min(|data|, TileBytesCount * tileIndex)
      invariant tiles == UnpackTiles(data, width, height)[..tileIndex]
    {
      var rows: seq<seq<int>> := [];
      for row := 0 to TileSize
        invariant |rows| == row && pos == Min(|data|, TileBytesCount * tileIndex + 4 * row)
        invariant forall r :: 0 <= r < row ==> rows[r] == UnpackTile(data, tileIndex)[r]
      {
        var cells;
        cells, pos := ReadTileRow(data, pos, tileIndex, row);
        assert cells == UnpackTile(data, tileIndex)[row];
        rows := rows + [cells];
      }
      assert rows == UnpackTile(data, tileIndex);
      tiles := tiles + [rows];
      tileIndex := tileIndex + 1;
    }
  }

  // ---------------------------------------------------------------- 16-bit streams

  /** A tile index `WriteTileMapToBinary` accepts: 0 .. ushort.MaxValue. */
  predicate InUshortRange(v: int) {
    0 <= v < 0x1_0000
  }

  /** The position of the first entry out of range, or the length when there is none. */
  function FirstOutOfRange(vs: seq<int>): (k: nat)
    ensures k <= |vs| && (k < |vs| ==> !InUshortRange(vs[k]))
  {
    if vs == [] then 0
    else if !InUshortRange(vs[0]) then 0
    else 1 + FirstOutOfRange(vs[1..])
  }

  /** Every entry before the first one out of range is in range. */
  lemma {:induction false} FirstOutOfRangeIsFirst(vs: seq<int>, j: nat)
    requires j < FirstOutOfRange(vs)
    ensures InUshortRange(vs[j])
  {
    if j > 0 {
      FirstOutOfRangeIsFirst(vs[1..], j - 1);
    }
  }

  /** A prefix that stops at or before the first entry out of range is all in range. */
  lemma {:induction false} FirstOutOfRangeTake(vs: seq<int>, i: nat)
    requires i <= FirstOutOfRange(vs)
    ensures FirstOutOfRange(vs[..i]) == i
  {
    if i > 0 {
      assert vs[..i][1..] == vs[1..][..i - 1];
      FirstOutOfRangeTake(vs[1..], i - 1);
    }
  }

  /** After a list all in range, the search goes on into what follows it. */
  lemma {:induction false} FirstOutOfRangeAppend(a: seq<int>, b: seq<int>)
    requires FirstOutOfRange(a) == |a|
    ensures FirstOutOfRange(a + b) == |a| + FirstOutOfRange(b)
  {
    if a != [] {
      assert (a + b)[1..] == a[1..] + b;
      FirstOutOfRangeAppend(a[1..], b);
    } else {
      assert a + b == b;
    }
  }

  /** Words written one list after another. */
  lemma {:induction false} U16sBEAppend(a: seq<nat>, b: seq<nat>)
    requires forall j :: 0 <= j < |a| ==> a[j] < 0x1_0000
    requires forall j :: 0 <= j < |b| ==> b[j] < 0x1_0000
    ensures U16sBE(a + b) == U16sBE(a) + U16sBE(b)
    decreases |b|
  {
    if b != [] {
      var n := |b| - 1;
      assert (a + b)[..|a + b| - 1] == a + b[..n];
      U16sBEAppend(a, b[..n]);
    } else {
      assert a + b == a;
    }
  }

  /**
   * `WriteTileMapToBinary(List<int>, BinaryWriter)`: each index as two bytes, high byte
   * first. An index below 0 or above 65535 raises ArgumentOutOfRangeException, after the
   * indices before it have been written.
   */
  method WriteTileMapToBinary(tileMap: seq<int>, writer: ByteWriter) returns (r: Result<()>)
    modifies writer
    ensures writer.bytes == old(writer.bytes) + MapStream(tileMap)
    ensures (r.Err? <==> FirstOutOfRange(tileMap) < |tileMap|) && (r.Err? ==> r.error == ArgumentOutOfRangeException)
  {
    for i := 0 to |tileMap|
      invariant i <= FirstOutOfRange(tileMap)
      invariant writer.bytes == old(writer.bytes) + MapStream(tileMap[..i])
    {
      var tileIndex := tileMap[i];
      if tileIndex < 0 || tileIndex > 0xFFFF {
        if i < FirstOutOfRange(tileMap) {
          FirstOutOfRangeIsFirst(tileMap, i);
        }
        MapStreamStop(tileMap, i);
        return Err(ArgumentOutOfRangeException);
      }
      MapStreamStep(tileMap, i);
      var bytes := U16BE(Ushort(tileIndex));
      writer.Write(bytes[0]);
      writer.Write(bytes[1]);
      AppendTwo(old(writer.bytes), MapStream(tileMap[..i]), bytes[0], bytes[1]);
    }
    assert tileMap[..|tileMap|] == tileMap;
    return Ok(());
  }

  /**
   * The bytes `WriteTileMapToBinary` leaves in the writer: the indices before the first one
   * out of range, two bytes each, high byte first.
   */
  function MapStream(vs: seq<int>): (r: seq<Byte>)
    ensures |r| == 2 * FirstOutOfRange(vs)
  {
    if vs == [] || !InUshortRange(vs[0]) then [] else U16BE(vs[0]) + MapStream(vs[1..])
  }

  /** Index j of the map, when the writer got that far, reads back from bytes 2j and 2j + 1. */
  lemma {:induction false} MapStreamRead(vs: seq<int>, j: nat)
    requires j < FirstOutOfRange(vs)
    ensures 2 * j + 2 <= |MapStream(vs)| && ReadU16BE(MapStream(vs), 2 * j) == vs[j]
  {
    var head, tail := U16BE(vs[0]), MapStream(vs[1..]);
    assert MapStream(vs) == head + tail;
    if j == 0 {
      assert (head + tail)[0] == head[0] && (head + tail)[1] == head[1];
    } else {
      MapStreamRead(vs[1..], j - 1);
      assert (head + tail)[2 * j] == tail[2 * (j - 1)];
      assert (head + tail)[2 * j + 1] == tail[2 * (j - 1) + 1];
    }
  }

  /** An index in range of `WriteTileMapToBinary`: its two bytes follow those before it. */
  lemma MapStreamStep(vs: seq<int>, i: nat)
    requires i < FirstOutOfRange(vs)
    ensures InUshortRange(vs[i])
    ensures MapStream(vs[..i + 1]) == MapStream(vs[..i]) + U16BE(vs[i])
  {
    FirstOutOfRangeTake(vs, i);
    FirstOutOfRangeIsFirst(vs, i);
    assert vs[..i + 1] == vs[..i] + [vs[i]];
    MapStreamAppend(vs[..i], [vs[i]]);
    MapStreamSingle(vs[i]);
  }

  /** One index in range is written as its two bytes. */
  lemma MapStreamSingle(v: int)
    requires InUshortRange(v)
    ensures MapStream([v]) == U16BE(v)
  {
    assert [v][1..] == [];
  }

  /** The first index out of range of `WriteTileMapToBinary`: the stream ends before it. */
  lemma MapStreamStop(vs: seq<int>, i: nat)
    requires i == FirstOutOfRange(vs) < |vs|
    ensures MapStream(vs) == MapStream(vs[..i])
  {
    FirstOutOfRangeTake(vs, i);
    assert vs[..i] + vs[i..] == vs;
    MapStreamAppend(vs[..i], vs[i..]);
    assert vs[i..][0] == vs[i];
  }

  /** Lists written one after another: the second follows a first that was all in range. */
  lemma {:induction false} MapStreamAppend(a: seq<int>, b: seq<int>)
    requires FirstOutOfRange(a) == |a|
    ensures MapStream(a + b) == MapStream(a) + MapStream(b)
  {
    if a == [] {
      assert a + b == b;
    } else {
      assert (a + b)[1..] == a[1..] + b;
      MapStreamAppend(a[1..], b);
    }
  }

  /** An index out of range ends the stream: nothing after it is written. */
  lemma {:induction false} MapStreamCut(a: seq<int>, b: seq<int>)
    requires FirstOutOfRange(a) < |a|
    ensures MapStream(a + b) == MapStream(a)
  {
    assert (a + b)[0] == a[0];
    if InUshortRange(a[0]) {
      assert (a + b)[1..] == a[1..] + b;
      MapStreamCut(a[1..], b);
    }
  }

  /** `WriteTileMapToBinary(List<List<int>>, BinaryWriter)`: each map in turn; an exception ends the loop. */
  method WriteTileMapsToBinary(tileMaps: seq<seq<int>>, writer: ByteWriter) returns (r: Result<()>)
    modifies writer
    ensures var flat := Flatten(tileMaps);
      writer.bytes == old(writer.bytes) + MapStream(flat) &&
      (r.Err? <==> FirstOutOfRange(flat) < |flat|) && (r.Err? ==> r.error == ArgumentOutOfRangeException)
  {
    for i := 0 to |tileMaps|
      invariant FirstOutOfRange(Flatten(tileMaps[..i])) == |Flatten(tileMaps[..i])|
      invariant writer.bytes == old(writer.bytes) + MapStream(Flatten(tileMaps[..i]))
    {
      TileMapsStep(tileMaps, i);
      AppendAssoc(old(writer.bytes), MapStream(Flatten(tileMaps[..i])), MapStream(tileMaps[i]));
      r := WriteTileMapToBinary(tileMaps[i], writer);
      if r.Err? {
        return;
      }
    }
    assert tileMaps[..|tileMaps|] == tileMaps;
    r := Ok(());
  }

  /**
   * One list of the nested tile-map writer: when the lists before it were all in range, its
   * bytes follow theirs, and an index out of range in it is out of range in the whole map.
   */
  lemma TileMapsStep(tileMaps: seq<seq<int>>, i: nat)
    requires i < |tileMaps| && FirstOutOfRange(Flatten(tileMaps[..i])) == |Flatten(tileMaps[..i])|
    ensures var done, m := Flatten(tileMaps[..i]), tileMaps[i];
      (FirstOutOfRange(m) == |m| ==>
        FirstOutOfRange(Flatten(tileMaps[..i + 1])) == |Flatten(tileMaps[..i + 1])| &&
        MapStream(Flatten(tileMaps[..i + 1])) == MapStream(done) + MapStream(m)) &&
      (FirstOutOfRange(m) < |m| ==>
        FirstOutOfRange(Flatten(tileMaps)) < |Flatten(tileMaps)| &&
        MapStream(Flatten(tileMaps)) == MapStream(done) + MapStream(m))
  {
    var done, m := Flatten(tileMaps[..i]), tileMaps[i];
    var rest := m + Flatten(tileMaps[i + 1..]);
    FlattenSplit(tileMaps, i);
    MapStreamAppend(done, rest);
    MapStreamAppend(done, m);
    FirstOutOfRangeAppend(done, m);
    if FirstOutOfRange(m) < |m| {
      MapStreamCut(m, Flatten(tileMaps[i + 1..]));
      FirstOutOfRangeAppend(done, rest);
      FirstOutOfRangePrefix(m, Flatten(tileMaps[i + 1..]));
    }
  }

  /** An entry out of range in a list is still the first one when more entries follow. */
  lemma {:induction false} FirstOutOfRangePrefix(m: seq<int>, more: seq<int>)
    requires FirstOutOfRange(m) < |m|
    ensures FirstOutOfRange(m + more) == FirstOutOfRange(m)
  {
    if InUshortRange(m[0]) {
      assert (m + more)[1..] == m[1..] + more;
      FirstOutOfRangePrefix(m[1..], more);
    }
  }

  /** The flattening splits at any list: the lists before it, the list, the lists after it. */
  lemma {:induction false} FlattenSplit<T>(ss: seq<seq<T>>, i: nat)
    requires i < |ss|
    ensures Flatten(ss[..i + 1]) == Flatten(ss[..i]) + ss[i]
    ensures Flatten(ss) == Flatten(ss[..i]) + (ss[i] + Flatten(ss[i + 1..]))
    decreases |ss|
  {
    TakeTake(ss, i, i + 1);
    var n := |ss| - 1;
    if i == n {
      TakeAll(ss);
      assert ss[i + 1..] == [];
    } else {
      FlattenSplit(ss[..n], i);
      TakeTake(ss, i, n);
      TakeDrop(ss, i + 1, n);
      DropLast(ss, i + 1);
      var mid := Flatten(ss[i + 1..n]);
      assert Flatten(ss[i + 1..]) == mid + ss[n];
      assert Flatten(ss) == Flatten(ss[..n]) + ss[n];
      ConcatAssoc(Flatten(ss[..i]), ss[i], mid, ss[n]);
    }
  }

  /** `WritePaletteToBinary(List<UInt16>, BinaryWriter)`: each colour word, high byte first. */
  method WritePaletteToBinary(palette: seq<nat>, writer: ByteWriter)
    requires forall j :: 0 <= j < |palette| ==> palette[j] < 0x1_0000
    modifies writer
    ensures writer.bytes == old(writer.bytes) + U16sBE(palette)
  {
    for i := 0 to |palette|
      invariant writer.bytes == old(writer.bytes) + U16sBE(palette[..i])
    {
      var bytes := U16BE(palette[i]);
      U16sBESnoc(palette, i);
      writer.Write(bytes[0]);
      writer.Write(bytes[1]);
      AppendTwo(old(writer.bytes), U16sBE(palette[..i]), bytes[0], bytes[1]);
    }
    assert palette[..|palette|] == palette;
  }

  /** `WritePaletteToBinary(List<List<UInt16>>, BinaryWriter)`: each palette in turn. */
  method WritePalettesToBinary(palettes: seq<seq<nat>>, writer: ByteWriter)
    requires forall i, j :: 0 <= i < |palettes| && 0 <= j < |palettes[i]| ==> palettes[i][j] < 0x1_0000
    modifies writer
    ensures forall j :: 0 <= j < |Flatten(palettes)| ==> Flatten(palettes)[j] < 0x1_0000
    ensures writer.bytes == old(writer.bytes) + U16sBE(Flatten(palettes))
  {
    for i := 0 to |palettes|
      invariant forall j :: 0 <= j < |Flatten(palettes[..i])| ==> Flatten(palettes[..i])[j] < 0x1_0000
      invariant writer.bytes == old(writer.bytes) + U16sBE(Flatten(palettes[..i]))
    {
      FlattenSplit(palettes, i);
      U16sBEAppend(Flatten(palettes[..i]), palettes[i]);
      WritePaletteToBinary(palettes[i], writer);
    }
    assert palettes[..|palettes|] == palettes;
  }

  // ---------------------------------------------------------------- BKG header

  /**
   * The 14 header bytes of `ConvertBmpToBkg`: the signature "BKG\0", the version word
   * 0x0101, then four big-endian words: the number of tile lists, the width and height in
   * tiles, and the plane count, 1 for fewer than 16 palette colours and 2 otherwise.
   */
  function BkgHeader(tileListCount: int, hTileCount: int, vTileCount: int, paletteCount: nat): (h: seq<Byte>)
    ensures |h| == 14 && h[..4] == [66, 75, 71, 0] && h[4..6] == [1, 1]
  {
    var planes := if paletteCount < 16 then 1 else 2;
    [66, 75, 71, 0] + [1, 1]
      + U16BE(Ushort(tileListCount)) + U16BE(Ushort(hTileCount))
      + U16BE(Ushort(vTileCount)) + U16BE(planes)
  }

  /** A reader of the header finds each field at its offset, truncated to 16 bits. */
  lemma BkgHeaderFields(tileListCount: int, hTileCount: int, vTileCount: int, paletteCount: nat)
    ensures var h := BkgHeader(tileListCount, hTileCount, vTileCount, paletteCount);
      |h| == 14 && h[..4] == [66, 75, 71, 0] && ReadU16BE(h, 4) == 0x0101 &&
      ReadU16BE(h, 6) == Ushort(tileListCount) &&
      ReadU16BE(h, 8) == Ushort(hTileCount) &&
      ReadU16BE(h, 10) == Ushort(vTileCount) &&
      ReadU16BE(h, 12) == (if paletteCount < 16 then 1 else 2)
  {
    var h := BkgHeader(tileListCount, hTileCount, vTileCount, paletteCount);
    var planes := if paletteCount < 16 then 1 else 2;
    assert h[6..8] == U16BE(Ushort(tileListCount));
    assert h[8..10] == U16BE(Ushort(hTileCount));
    assert h[10..12] == U16BE(Ushort(vTileCount));
    assert h[12..14] == U16BE(planes);
  }

  /**
   * The header of a 16x16 image with one list of tiles and at most 15 colours:
   * 42 4B 47 00 01 01 00 01 00 02 00 02 00 01.
   */
  lemma BkgHeaderExample(paletteCount: nat)
    requires paletteCount < 16
    ensures BkgHeader(1, 16 / TileSize, 16 / TileSize, paletteCount) ==
      [0x42, 0x4B, 0x47, 0x00, 0x01, 0x01, 0x00, 0x01, 0x00, 0x02, 0x00, 0x02, 0x00, 0x01]
  {
  }
}
