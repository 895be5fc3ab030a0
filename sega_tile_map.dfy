/**
 * `GetTileMap` of RetroLib/Platforms/SegaGenesis.cs: the image is cut into
 * tileWidth x tileHeight blocks of ARGB values, scanned row by row, and each block
 * is replaced by the index of the first equal block, unique blocks being numbered
 * 0, 1, 2, ... in the order in which they are first met. Blocks are compared
 * through their `TileToString` key, held in a `Dictionary<string, int>`.
 */
module SegaTileMap {
  import opened Wrappers
  import opened Enumeration
  import opened Sequences
  import opened Drawing
  import opened Text

  /** A block of cells: `g[ty][tx]` stands for `tile[ty, tx]` of an `int[h, w]`. */
  predicate IsGrid(g: seq<seq<Int32>>, h: nat, w: nat) {
    |g| == h && forall ty :: 0 <= ty < h ==> |g[ty]| == w
  }

  /** A C# `int`: a cell of the tile map's blocks. */
  type Int32 = v: int | IsInt32(v)

  /** The cells of one row, each as eight upper-case hex digits, left to right. */
  function RowKey(r: seq<Int32>): (key: string)
    ensures |key| == 8 * |r|
  {
    if r == [] then "" else RowKey(r[..|r| - 1]) + FormatX8(r[|r| - 1])
  }

  /** The dictionary key that `TileToString` builds: the row keys, top to bottom. */
  function TileKey(g: seq<seq<Int32>>): string
  {
    if g == [] then "" else TileKey(g[..|g| - 1]) + RowKey(g[|g| - 1])
  }

  /** Rows of equal length with equal keys are equal: every cell has exactly eight digits. */
  lemma {:induction false} RowKeyInjective(r: seq<Int32>, s: seq<Int32>)
    requires |r| == |s| && RowKey(r) == RowKey(s)
    ensures r == s
  {
    if r != [] {
      var n := |r| - 1;
      var kr, ks := RowKey(r[..n]), RowKey(s[..n]);
      assert RowKey(r) == kr + FormatX8(r[n]);
      assert RowKey(s) == ks + FormatX8(s[n]);
      assert kr == RowKey(r)[..|kr|] && ks == RowKey(s)[..|ks|];
      assert FormatX8(r[n]) == RowKey(r)[|kr|..] && FormatX8(s[n]) == RowKey(s)[|ks|..];
      RowKeyInjective(r[..n], s[..n]);
      FormatX8Injective(r[n], s[n]);
      assert r == r[..n] + [r[n]] && s == s[..n] + [s[n]];
    }
  }

  /**
   * Keys identify blocks: two blocks of the same shape are equal exactly when their
   * `TileToString` keys are.
   */
  lemma {:induction false} TileKeyInjective(a: seq<seq<Int32>>, b: seq<seq<Int32>>, h: nat, w: nat)
    requires IsGrid(a, h, w) && IsGrid(b, h, w)
    ensures TileKey(a) == TileKey(b) <==> a == b
  {
    if a != [] && TileKey(a) == TileKey(b) {
      var n := h - 1;
      var ka, kb := TileKey(a[..n]), TileKey(b[..n]);
      var ra, rb := RowKey(a[n]), RowKey(b[n]);
      assert TileKey(a) == ka + ra && TileKey(b) == kb + rb;
      assert |ra| == |rb|;
      assert ka == TileKey(a)[..|ka|] && kb == TileKey(b)[..|kb|];
      assert ra == TileKey(a)[|ka|..] && rb == TileKey(b)[|kb|..];
      TileKeyInjective(a[..n], b[..n], n, w);
      RowKeyInjective(a[n], b[n]);
      assert a == a[..n] + [a[n]] && b == b[..n] + [b[n]];
    }
  }

  /**
   * `TileToString`: one `ToString("X8")` per cell, row by row, appended to a
   * StringBuilder.
   */
  method TileToString(tile: seq<seq<Int32>>, h: nat, w: nat) returns (key: string)
    requires IsGrid(tile, h, w)
    ensures key == TileKey(tile)
  {
    key := "";
    for i := 0 to h
      invariant key == TileKey(tile[..i])
    {
      ghost var above := key;
      for j := 0 to w
        invariant key == above + RowKey(tile[i][..j])
      {
        assert tile[i][..j + 1][..j] == tile[i][..j];
        key := key + FormatX8(tile[i][j]);
      }
      assert tile[i][..w] == tile[i];
      assert tile[..i + 1][..i] == tile[..i];
    }
    assert tile[..h] == tile;
  }

  /** `pixel.ToArgb()` for a pixel inside the image; a cell outside it keeps its initial 0. */
  function ArgbCell(img: Image, px: nat, py: nat): Int32 {
    if px < img.width && py < img.height then ToArgb(GetPixel(img, px, py)) else 0
  }

  /** Cells (x0, py) to (x0 + w - 1, py). */
  function ArgbRow(img: Image, x0: nat, py: nat, w: nat): (r: seq<Int32>)
    ensures |r| == w && forall tx :: 0 <= tx < w ==> r[tx] == ArgbCell(img, x0 + tx, py)
  {
    seq<Int32>(w, tx requires 0 <= tx < w => ArgbCell(img, x0 + tx, py))
  }

  /**
   * The ARGB block at tile column x, tile row y: `ToArgb` of each pixel, and 0 for a cell
   * that would lie outside the image.
   */
  function ArgbBlock(img: Image, tw: nat, th: nat, x: nat, y: nat): (g: seq<seq<Int32>>)
    ensures IsGrid(g, th, tw)
  {
    var x0, y0 := x * tw, y * th;
    var g := seq<seq<Int32>>(th, ty requires 0 <= ty < th => ArgbRow(img, x0, y0 + ty, tw));
    assert forall ty :: 0 <= ty < th ==> g[ty] == ArgbRow(img, x0, y0 + ty, tw);
    g
  }

  /**
   * The two innermost loops of `GetTileMap`: a fresh `int[tileHeight, tileWidth]` filled
   * with the ARGB values of the pixels that exist.
   */
  method FillBlock(img: Image, tw: nat, th: nat, x: nat, y: nat) returns (tile: seq<seq<Int32>>)
    ensures tile == ArgbBlock(img, tw, th, x, y)
  {
    var x0, y0 := x * tw, y * th;
    tile := [];
    for ty := 0 to th
      invariant tile == ArgbBlock(img, tw, th, x, y)[..ty]
    {
      ghost var expected := ArgbRow(img, x0, y0 + ty, tw);
      var row: seq<Int32> := [];
      for tx := 0 to tw
        invariant row == expected[..tx]
      {
        var pixelX, pixelY := x0 + tx, y0 + ty;
        var cell := 0;
        if pixelX < img.width && pixelY < img.height {
          cell := ToArgb(img.rows[pixelY][pixelX]);
        }
        assert cell == ArgbCell(img, pixelX, pixelY);
        assert expected[..tx + 1] == row + [cell];
        row := row + [cell];
      }
      assert row == expected;
      tile := tile + [row];
    }
  }

  /** The blocks of the scan, y outer and x inner. */
  function BlockFn(img: Image, tw: nat, th: nat): (nat, nat) -> seq<seq<Int32>> {
    (x: nat, y: nat) => ArgbBlock(img, tw, th, x, y)
  }

  function Blocks(img: Image, tw: nat, th: nat): seq<seq<seq<Int32>>>
    requires tw > 0 && th > 0
  {
    RowMajor(BlockFn(img, tw, th), img.width / tw, img.height / th)
  }

  /** The dictionary key of each block, in scan order. */
  function KeysOf(blocks: seq<seq<seq<Int32>>>): (keys: seq<string>)
    ensures |keys| == |blocks|
  {
    seq(|blocks|, k requires 0 <= k < |blocks| => TileKey(blocks[k]))
  }

  lemma KeysOfSnoc(blocks: seq<seq<seq<Int32>>>, tile: seq<seq<Int32>>)
    ensures KeysOf(blocks + [tile]) == KeysOf(blocks) + [TileKey(tile)]
  {
    assert |KeysOf(blocks + [tile])| == |KeysOf(blocks) + [TileKey(tile)]|;
  }

  function Keys(img: Image, tw: nat, th: nat): seq<string>
    requires tw > 0 && th > 0
  {
    KeysOf(Blocks(img, tw, th))
  }

  /**
   * The dictionary numbering of a scan: each element is replaced by its position in
   * the insertion-ordered set of the elements met so far.
   */
  function Numbering<T(==)>(s: seq<T>): (m: seq<int>)
    ensures |m| == |s|
  {
    if s == [] then [] else Numbering(s[..|s| - 1]) + [IndexOf(Dedup(s), s[|s| - 1])]
  }

  /** What `GetTileMap` returns for positive tile dimensions. */
  function TileMapOf(img: Image, tw: nat, th: nat): seq<int>
    requires tw > 0 && th > 0
  {
    Numbering(Keys(img, tw, th))
  }

  /**
   * `GetTileMap(bitmap, tileWidth, tileHeight)`: ArgumentException unless both dimensions
   * are positive; otherwise the index of each block's key in the dictionary, which gives
   * a new key the count of unique tiles seen so far.
   */
  method GetTileMap(img: Image, tileWidth: int, tileHeight: int) returns (r: Result<seq<int>>)
    ensures r.Err? <==> tileWidth <= 0 || tileHeight <= 0
    ensures r.Err? ==> r.error == ArgumentException
    ensures r.Ok? ==> r.value == TileMapOf(img, tileWidth, tileHeight)
  {
    if tileWidth <= 0 || tileHeight <= 0 {
      return Err(ArgumentException);
    }
    var uniqueTiles: seq<seq<seq<Int32>>> := [];
    var tileIndices: map<string, int> := map[];
    var tileMap: seq<int> := [];
    var widthInTiles := img.width / tileWidth;
    var heightInTiles := img.height / tileHeight;
    ghost var f := BlockFn(img, tileWidth, tileHeight);
    ghost var scanned: seq<seq<seq<Int32>>> := [];
    ghost var keys: seq<string> := [];
    for y := 0 to heightInTiles
      invariant scanned == RowMajor(f, widthInTiles, y) && keys == KeysOf(scanned)
      invariant tileIndices == Ranks(keys) && |uniqueTiles| == |Dedup(keys)|
      invariant tileMap == Numbering(keys)
    {
      ghost var above := scanned;
      for x := 0 to widthInTiles
        invariant scanned == above + Row(f, y, x) && keys == KeysOf(scanned)
        invariant tileIndices == Ranks(keys) && |uniqueTiles| == |Dedup(keys)|
        invariant tileMap == Numbering(keys)
      {
        var tile := FillBlock(img, tileWidth, tileHeight, x, y);
        var tileKey := TileToString(tile, tileHeight, tileWidth);
        RecordKey(keys, tileMap, tileKey);
        if tileKey !in tileIndices {
          tileIndices := tileIndices[tileKey := |uniqueTiles|];
          uniqueTiles := uniqueTiles + [tile];
        }
        tileMap := tileMap + [tileIndices[tileKey]];
        assert Row(f, y, x + 1) == Row(f, y, x) + [tile];
        AppendAssoc(above, Row(f, y, x), [tile]);
        KeysOfSnoc(scanned, tile);
        scanned, keys := scanned + [tile], keys + [tileKey];
      }
      ScanNextRow(f, widthInTiles, y, above);
    }
    r := Ok(tileMap);
  }

  /**
   * The dictionary after the keys met so far: a key not yet present is added with the
   * number of unique tiles before it.
   */
  function Ranks(keys: seq<string>): (m: map<string, int>)
    ensures forall k :: k in m <==> k in keys
  {
    if keys == [] then map[]
    else
      var prefix, key := keys[..|keys| - 1], keys[|keys| - 1];
      assert keys == prefix + [key];
      var m := Ranks(prefix);
      if key in m then m else m[key := |Dedup(prefix)|]
  }

  /** Looking up one more key either finds it or adds it with the current count. */
  lemma RanksSnoc(keys: seq<string>, key: string)
    ensures Ranks(keys + [key]) == if key in keys then Ranks(keys) else Ranks(keys)[key := |Dedup(keys)|]
  {
    assert (keys + [key])[..|keys|] == keys;
  }

  /** The dictionary holds each key's rank among the distinct keys, in first-seen order. */
  lemma {:induction false} RanksAreIndices(keys: seq<string>, k: string)
    requires k in keys
    ensures Ranks(keys)[k] == IndexOf(Dedup(keys), k)
  {
    var prefix, last := keys[..|keys| - 1], keys[|keys| - 1];
    assert keys == prefix + [last];
    RanksSnoc(prefix, last);
    DedupSnoc(prefix, last);
    DedupMembers(prefix);
    IndexOfAppend(Dedup(prefix), last, k);
    if k in prefix {
      RanksAreIndices(prefix, k);
    }
  }

  /**
   * One more key: a new one goes into the dictionary with the current count of unique
   * tiles, an old one keeps its rank, and the rank looked up extends the numbering.
   */
  lemma RecordKey(keys: seq<string>, tileMap: seq<int>, key: string)
    requires tileMap == Numbering(keys)
    ensures key !in keys ==>
      var indices := Ranks(keys)[key := |Dedup(keys)|];
      |Dedup(keys + [key])| == |Dedup(keys)| + 1 &&
      indices == Ranks(keys + [key]) && tileMap + [indices[key]] == Numbering(keys + [key])
    ensures key in keys ==>
      |Dedup(keys + [key])| == |Dedup(keys)| &&
      Ranks(keys) == Ranks(keys + [key]) && tileMap + [Ranks(keys)[key]] == Numbering(keys + [key])
  {
    NumberingSnoc(keys, key);
    RanksSnoc(keys, key);
    DedupSnoc(keys, key);
    DedupMembers(keys);
    IndexOfAppend(Dedup(keys), key, key);
    if key in keys {
      RanksAreIndices(keys, key);
    }
  }

  /** The map has one entry per block of the scan: (W / tileWidth) * (H / tileHeight). */
  lemma TileMapLength(img: Image, tw: nat, th: nat)
    requires tw > 0 && th > 0
    ensures |TileMapOf(img, tw, th)| == (img.width / tw) * (img.height / th)
  {
    RowMajorLength(BlockFn(img, tw, th), img.width / tw, img.height / th);
  }

  /** The numbering of a prefix is the prefix of the numbering. */
  lemma {:induction false} NumberingPrefix<T>(s: seq<T>, n: nat)
    requires n <= |s|
    ensures Numbering(s[..n]) == Numbering(s)[..n]
    decreases |s|
  {
    if n < |s| {
      var p := s[..|s| - 1];
      assert s[..n] == p[..n];
      NumberingPrefix(p, n);
    } else {
      assert s[..n] == s;
    }
  }

  /**
   * Entry i is the rank of s[i] among the distinct elements of s[..i + 1]: the count of
   * distinct elements before it when s[i] is new, its earlier rank otherwise.
   */
  lemma NumberingAt<T>(s: seq<T>, i: nat)
    requires i < |s|
    ensures s[i] !in s[..i] ==> Numbering(s)[i] == |Dedup(s[..i])|
    ensures s[i] in s[..i] ==> Numbering(s)[i] == IndexOf(Dedup(s[..i]), s[i])
    ensures Numbering(s)[i] == IndexOf(Dedup(s[..i + 1]), s[i])
  {
    var d := Dedup(s[..i]);
    NumberingEntry(s, i);
    DedupTake(s, i);
    DedupMembers(s[..i]);
    if s[i] !in s[..i] {
      IndexOfAppend(d, s[i], s[i]);
    }
  }

  /** Entry i is the rank of s[i] in the set built from s[..i + 1]. */
  lemma NumberingEntry<T>(s: seq<T>, i: nat)
    requires i < |s|
    ensures Numbering(s)[i] == IndexOf(Dedup(s[..i + 1]), s[i])
  {
    var p := s[..i + 1];
    NumberingPrefix(s, i + 1);
    assert |p| == i + 1 && p[i] == s[i];
    assert Numbering(p) == Numbering(p[..i]) + [IndexOf(Dedup(p), p[i])];
    assert Numbering(p)[i] == Numbering(s)[i];
  }

  /** No entry exceeds its position: at most i distinct elements come before position i. */
  lemma NumberingBound<T>(s: seq<T>, i: nat)
    requires i < |s|
    ensures 0 <= Numbering(s)[i] <= i
  {
    NumberingAt(s, i);
    var p := s[..i + 1];
    assert s[i] == p[i];
    DedupMembers(p);
    DedupLength(p);
  }

  /** Numbering one more element appends that element's rank. */
  lemma NumberingSnoc<T>(s: seq<T>, x: T)
    ensures Numbering(s + [x]) == Numbering(s) + [IndexOf(Dedup(s + [x]), x)]
  {
    assert (s + [x])[..|s|] == s;
  }

  /** The rank of an element does not change when later elements are added. */
  lemma {:induction false} DedupIndexStable<T>(s: seq<T>, n: nat, x: T)
    requires n <= |s| && x in s[..n]
    ensures IndexOf(Dedup(s), x) == IndexOf(Dedup(s[..n]), x)
    decreases |s|
  {
    if n < |s| {
      var p := s[..|s| - 1];
      assert s[..n] == p[..n];
      assert s == p + [s[|s| - 1]];
      DedupIndexStable(p, n, x);
      DedupSnoc(p, s[|s| - 1]);
      DedupMembers(p);
      assert x in p;
      IndexOfAppend(Dedup(p), s[|s| - 1], x);
    } else {
      assert s[..n] == s;
    }
  }

  /** Entry i is the rank of s[i] among all distinct elements of s. */
  lemma NumberingRank<T>(s: seq<T>, i: nat)
    requires i < |s|
    ensures Numbering(s)[i] == IndexOf(Dedup(s), s[i])
  {
    NumberingAt(s, i);
    assert s[..i + 1][i] == s[i];
    DedupIndexStable(s, i + 1, s[i]);
  }

  /** Two entries are equal exactly when the scanned elements are. */
  lemma NumberingSame<T>(s: seq<T>, i: nat, j: nat)
    requires i < |s| && j < |s|
    ensures Numbering(s)[i] == Numbering(s)[j] <==> s[i] == s[j]
  {
    NumberingRank(s, i);
    NumberingRank(s, j);
    DedupMembers(s);
  }

  /**
   * The tile map's promise: two entries are equal exactly when the two blocks of ARGB
   * values are equal.
   */
  lemma TileMapSameBlocks(img: Image, tw: nat, th: nat, i: nat, j: nat)
    requires tw > 0 && th > 0
    requires i < |TileMapOf(img, tw, th)| && j < |TileMapOf(img, tw, th)|
    ensures |Blocks(img, tw, th)| == |TileMapOf(img, tw, th)|
    ensures TileMapOf(img, tw, th)[i] == TileMapOf(img, tw, th)[j] <==>
      Blocks(img, tw, th)[i] == Blocks(img, tw, th)[j]
  {
    var blocks := Blocks(img, tw, th);
    BlocksAreGrids(img, tw, th, i);
    BlocksAreGrids(img, tw, th, j);
    TileKeyInjective(blocks[i], blocks[j], th, tw);
    NumberingSame(Keys(img, tw, th), i, j);
  }

  /** Every block of the scan has the requested shape. */
  lemma BlocksAreGrids(img: Image, tw: nat, th: nat, i: nat)
    requires tw > 0 && th > 0 && i < |Blocks(img, tw, th)|
    ensures IsGrid(Blocks(img, tw, th)[i], th, tw)
  {
    ScanGrids(img, tw, th, img.width / tw, img.height / th, i);
  }

  /** Every entry of a scan of blocks is a th x tw grid. */
  lemma ScanGrids(img: Image, tw: nat, th: nat, cols: nat, rows: nat, i: nat)
    requires i < |RowMajor(BlockFn(img, tw, th), cols, rows)|
    ensures IsGrid(RowMajor(BlockFn(img, tw, th), cols, rows)[i], th, tw)
  {
    RowMajorElement(BlockFn(img, tw, th), cols, rows, i);
    BlockFnAt(img, tw, th, i % cols, i / cols);
  }

  lemma BlockFnAt(img: Image, tw: nat, th: nat, x: nat, y: nat)
    ensures BlockFn(img, tw, th)(x, y) == ArgbBlock(img, tw, th, x, y)
    ensures IsGrid(BlockFn(img, tw, th)(x, y), th, tw)
  {
  }

  /**
   * Unique tiles are numbered consecutively in discovery order: a block not seen before
   * gets the number of unique blocks before it, so the first entry is 0 and no entry
   * exceeds its position.
   */
  lemma TileMapNumbering(img: Image, tw: nat, th: nat, i: nat)
    requires tw > 0 && th > 0 && i < |TileMapOf(img, tw, th)|
    ensures var keys := Keys(img, tw, th);
      keys[i] !in keys[..i] ==> TileMapOf(img, tw, th)[i] == |Dedup(keys[..i])|
    ensures 0 <= TileMapOf(img, tw, th)[i] <= i
  {
    NumberingAt(Keys(img, tw, th), i);
    NumberingBound(Keys(img, tw, th), i);
  }

  /**
   * Numbers are handed out without gaps: every entry after the first is at most one more
   * than some earlier entry, hence at most one more than the largest earlier entry.
   */
  lemma NumberingNoGaps<T>(s: seq<T>, i: nat)
    requires 0 < i < |s|
    ensures exists j :: 0 <= j < i && Numbering(s)[i] <= Numbering(s)[j] + 1
  {
    var d := Dedup(s[..i]);
    NumberingAt(s, i);
    DedupMembers(s[..i]);
    if s[i] in s[..i] {
      var j := IndexOf(s, s[i]);
      NumberingSame(s, i, j);
    } else {
      assert s[0] in s[..i];
      var x := d[|d| - 1];
      var j := IndexOf(s, x);
      DedupDistinct(s[..i]);
      assert IndexOf(d, x) == |d| - 1;
      DedupIndexStable(s, i, x);
      NumberingRank(s, j);
      assert Numbering(s)[j] == |d| - 1;
    }
  }

  /**
   * The tile map is numbered without gaps: entry 0 is 0 and every later entry is at most
   * one more than the maximum of the entries before it.
   */
  lemma TileMapNoGaps(img: Image, tw: nat, th: nat, i: nat)
    requires tw > 0 && th > 0 && i < |TileMapOf(img, tw, th)|
    ensures i == 0 ==> TileMapOf(img, tw, th)[i] == 0
    ensures i > 0 ==> exists j :: 0 <= j < i && TileMapOf(img, tw, th)[i] <= TileMapOf(img, tw, th)[j] + 1
  {
    NumberingBound(Keys(img, tw, th), i);
    if i > 0 {
      NumberingNoGaps(Keys(img, tw, th), i);
    }
  }
}
