/**
 * Colour analysis of RetroLib/General/Palette.cs: exact palette extraction, the
 * 16-colour check, most-frequent and nearest colour, two-level and grey
 * quantisation, and in-place colour replacement.
 */
module Palette {
  import opened Wrappers
  import opened Arith
  import opened Enumeration
  import opened Sequences
  import opened Drawing

  /** The palette of an image: its colours in the order the y-outer, x-inner scan first meets them. */
  function PaletteOf(img: Image): seq<Color> {
    Dedup(Pixels(img))
  }

  /** `GetPaletteStright` (and `GetPalette` with its default exact mode). */
  method GetPaletteStright(img: Image) returns (palette: seq<Color>)
    ensures palette == PaletteOf(img)
  {
    palette := [];
    ghost var f := PixelFn(img);
    ghost var scanned: seq<Color> := [];
    for y := 0 to img.height
      invariant scanned == RowMajor(f, img.width, y)
      invariant palette == Dedup(scanned)
    {
      ghost var above := scanned;
      for x := 0 to img.width
        invariant scanned == above + Row(f, y, x)
        invariant palette == Dedup(scanned)
      {
        var pixelColor := img.rows[y][x];
        assert pixelColor == f(x, y);
        DedupSnoc(scanned, pixelColor);
        palette := Add(palette, pixelColor);
        AppendAssoc(above, Row(f, y, x), [pixelColor]);
        scanned := scanned + [pixelColor];
      }
      ScanNextRow(f, img.width, y, above);
    }
  }

  /** Every colour in the palette is the colour of some pixel. */
  lemma PaletteOnlyPixels(img: Image, c: Color)
    requires c in PaletteOf(img)
    ensures exists x: nat, y: nat :: x < img.width && y < img.height && GetPixel(img, x, y) == c
  {
    DedupMembers(Pixels(img));
    var k :| 0 <= k < |Pixels(img)| && Pixels(img)[k] == c;
    ScanIsPixel(img, k);
    assert GetPixel(img, k % img.width, k / img.width) == c;
  }

  /** The colour of every pixel is in the palette. */
  lemma PaletteHasEveryPixel(img: Image, x: nat, y: nat)
    requires x < img.width && y < img.height
    ensures GetPixel(img, x, y) in PaletteOf(img)
  {
    DedupMembers(Pixels(img));
    PixelVisited(img, x, y);
  }

  /** A colour is in the palette exactly when some pixel has it. */
  lemma PaletteMembers(img: Image, c: Color)
    ensures c in PaletteOf(img) <==>
      exists x: nat, y: nat :: x < img.width && y < img.height && GetPixel(img, x, y) == c
  {
    if c in PaletteOf(img) {
      PaletteOnlyPixels(img, c);
    }
    if exists x: nat, y: nat :: x < img.width && y < img.height && GetPixel(img, x, y) == c {
      var x: nat, y: nat :| x < img.width && y < img.height && GetPixel(img, x, y) == c;
      PaletteHasEveryPixel(img, x, y);
    }
  }

  /** No colour is listed twice, and the palette size is the number of distinct colours. */
  lemma PaletteDistinct(img: Image)
    ensures Distinct(PaletteOf(img))
    ensures |PaletteOf(img)| == |set c | c in Pixels(img)|
  {
    DedupDistinct(Pixels(img));
    DedupCardinality(Pixels(img));
  }

  /** An image without pixels has an empty palette. */
  lemma PaletteOfEmpty(img: Image)
    requires img.width == 0 || img.height == 0
    ensures PaletteOf(img) == []
  {
    RowMajorLength(PixelFn(img), img.width, img.height);
  }

  /** `Has16Colors`: at most sixteen distinct colours (not exactly sixteen). */
  method Has16Colors(img: Image) returns (b: bool)
    ensures b <==> |set c | c in Pixels(img)| <= 16
  {
    var palette := GetPaletteStright(img);
    PaletteDistinct(img);
    b := |palette| <= 16;
  }

  /** `Check16Colors`: throws (a plain Exception) exactly when the image has more than sixteen colours. */
  method Check16Colors(img: Image) returns (r: Result<()>)
    ensures r.Err? <==> |set c | c in Pixels(img)| > 16
    ensures r.Err? ==> r.error == GeneralException
  {
    var ok := Has16Colors(img);
    if !ok {
      return Err(GeneralException);
    }
    return Ok(());
  }

  /** How often c occurs in the list. */
  function Occurrences(colors: seq<Color>, c: Color): nat {
    multiset(colors)[c]
  }

  /** The counting loop of `FindMostFrequentColor`: the Dictionary's keys in insertion order and its counts. */
  method CountColors(colors: seq<Color>) returns (counts: map<Color, nat>, keys: seq<Color>)
    ensures keys == Dedup(colors)
    ensures forall c :: c in counts <==> c in colors
    ensures forall c :: c in counts ==> counts[c] == Occurrences(colors, c)
  {
    counts := map[];
    keys := [];
    for i := 0 to |colors|
      invariant keys == Dedup(colors[..i])
      invariant forall c :: c in counts <==> c in colors[..i]
      invariant forall c :: c in counts ==> counts[c] == multiset(colors[..i])[c]
    {
      var c := colors[i];
      assert colors[..i + 1] == colors[..i] + [c];
      DedupSnoc(colors[..i], c);
      if c in counts {
        counts := counts[c := counts[c] + 1];
      } else {
        counts := counts[c := 1];
      }
      keys := Add(keys, c);
    }
    assert colors[..|colors|] == colors;
  }

  /** `Enumerable.Max` over a non-empty sequence of counts. */
  method MaxValue(values: seq<nat>) returns (m: nat)
    requires values != []
    ensures m in values
    ensures forall j :: 0 <= j < |values| ==> values[j] <= m
  {
    m := values[0];
    for i := 1 to |values|
      invariant m in values[..i]
      invariant forall j :: 0 <= j < i ==> values[j] <= m
    {
      if values[i] > m {
        m := values[i];
      }
    }
  }

  /** `FirstOrDefault(x => x.Value == m)` when some entry has the value: the first such position. */
  method FirstIndexWith(values: seq<nat>, m: nat) returns (k: nat)
    requires m in values
    ensures k < |values| && values[k] == m
    ensures forall j :: 0 <= j < k ==> values[j] != m
  {
    k := 0;
    while values[k] != m
      invariant k < |values| && m in values[k..]
      invariant forall j :: 0 <= j < k ==> values[j] != m
      decreases |values| - k
    {
      assert values[k..] == [values[k]] + values[k + 1..];
      k := k + 1;
    }
  }

  /**
   * `FindMostFrequentColor`: counts the colours in a Dictionary, takes `Values.Max()`
   * and returns the first key (in insertion order) that has that count.
   */
  method FindMostFrequentColor(colors: seq<Color>) returns (r: Result<Color>)
    ensures colors == [] <==> r.Err?
    ensures r.Err? ==> r.error == InvalidOperationException
    ensures r.Ok? ==> r.value in colors
    ensures r.Ok? ==> forall d :: d in colors ==> Occurrences(colors, d) <= Occurrences(colors, r.value)
    ensures r.Ok? ==> forall d :: d in colors && IndexOf(colors, d) < IndexOf(colors, r.value) ==>
      Occurrences(colors, d) < Occurrences(colors, r.value)
  {
    var counts, keys := CountColors(colors);
    DedupMembers(colors);
    if keys == [] {
      return Err(InvalidOperationException);
    }
    assert forall j :: 0 <= j < |keys| ==> keys[j] in colors;
    var values := seq(|keys|, j requires 0 <= j < |keys| => counts[keys[j]]);
    assert forall j :: 0 <= j < |keys| ==> values[j] == Occurrences(colors, keys[j]);
    var maxCount := MaxValue(values);
    var k := FirstIndexWith(values, maxCount);
    MostFrequentFirst(colors, keys, maxCount, k);
    return Ok(keys[k]);
  }

  /** The first key carrying the maximal count is a most frequent colour, and every colour met
      earlier in the list is strictly rarer. */
  lemma MostFrequentFirst(colors: seq<Color>, keys: seq<Color>, maxCount: nat, k: nat)
    requires keys == Dedup(colors)
    requires forall j :: 0 <= j < |keys| ==> Occurrences(colors, keys[j]) <= maxCount
    requires k < |keys| && Occurrences(colors, keys[k]) == maxCount
    requires forall j :: 0 <= j < k ==> Occurrences(colors, keys[j]) != maxCount
    ensures keys[k] in colors
    ensures forall d :: d in colors ==> Occurrences(colors, d) <= Occurrences(colors, keys[k])
    ensures forall d :: d in colors && IndexOf(colors, d) < IndexOf(colors, keys[k]) ==>
      Occurrences(colors, d) < Occurrences(colors, keys[k])
  {
    DedupMembers(colors);
    DedupDistinct(colors);
    var best := keys[k];
    assert IndexOf(keys, best) == k;
    forall d | d in colors
      ensures Occurrences(colors, d) <= Occurrences(colors, best)
    {
      assert keys[IndexOf(keys, d)] == d;
    }
    forall d | d in colors && IndexOf(colors, d) < IndexOf(colors, best)
      ensures Occurrences(colors, d) < Occurrences(colors, best)
    {
      DedupOrder(colors, d, best);
      assert keys[IndexOf(keys, d)] == d;
    }
  }

  /** Squared distance between the RGB parts of two colours (alpha ignored). */
  function DistanceSquared(c: Color, d: Color): (n: nat)
    ensures n <= 3 * 255 * 255
  {
    SquareBound(c.r - d.r);
    SquareBound(c.g - d.g);
    SquareBound(c.b - d.b);
    (c.r - d.r) * (c.r - d.r) + (c.g - d.g) * (c.g - d.g) + (c.b - d.b) * (c.b - d.b)
  }

  lemma SquareBound(x: int)
    requires -255 <= x <= 255
    ensures 0 <= x * x <= 255 * 255
  {
    if x >= 0 {
      MulMonotone(x, 255, x);
      MulMonotone(x, 255, 255);
    } else {
      MulMonotone(-x, 255, -x);
      MulMonotone(-x, 255, 255);
    }
  }

  /** `int.MaxValue`, the starting minimum of the nearest-colour search. */
  const IntMaxValue := 0x7FFF_FFFF

  /**
   * `FindClosestPaletteColor`: a running minimum of the squared distance, replaced only
   * on a strictly smaller distance. `Color.Empty` (None) when the palette is empty.
   */
  method FindClosestPaletteColor(color: Color, palette: seq<Color>) returns (r: Option<Color>)
    ensures r.None? <==> palette == []
    ensures r.Some? ==> r.value in palette
    ensures r.Some? ==> forall j :: 0 <= j < |palette| ==>
      DistanceSquared(color, r.value) <= DistanceSquared(color, palette[j])
    ensures r.Some? ==> forall j :: 0 <= j < IndexOf(palette, r.value) ==>
      DistanceSquared(color, r.value) < DistanceSquared(color, palette[j])
  {
    var minDistanceSquared := IntMaxValue;
    r := None;
    ghost var best := 0;
    for i := 0 to |palette|
      invariant r.None? <==> i == 0
      invariant i > 0 ==> 0 <= best < i && r == Some(palette[best])
      invariant i > 0 ==> minDistanceSquared == DistanceSquared(color, palette[best])
      invariant i == 0 ==> minDistanceSquared == IntMaxValue
      invariant i > 0 ==> forall j :: 0 <= j < i ==> DistanceSquared(color, palette[best]) <= DistanceSquared(color, palette[j])
      invariant i > 0 ==> forall j :: 0 <= j < best ==> DistanceSquared(color, palette[best]) < DistanceSquared(color, palette[j])
    {
      var distanceSquared := DistanceSquared(color, palette[i]);
      if distanceSquared < minDistanceSquared {
        minDistanceSquared := distanceSquared;
        r := Some(palette[i]);
        best := i;
      }
    }
    if r.Some? {
      assert IndexOf(palette, r.value) <= best;
    }
  }

  /** The exact-match branch of `FindMostSimilarColor`: the pixel colour itself when the set holds it;
      None when the floating-point search would decide instead. */
  function FindMostSimilarColorExact(colors: seq<Color>, pixelColor: Color): (r: Option<Color>)
    ensures r.Some? <==> pixelColor in colors
    ensures r.Some? ==> r.value == pixelColor
  {
    if pixelColor in colors then Some(pixelColor) else None
  }

  /** One channel of the two-level quantisation: below 128 becomes 0, the rest 255. */
  function TwoLevel(v: Byte): Byte {
    if v < 128 then 0 else 255
  }

  /** `ConvertTo4Color(Color)`: an opaque colour with every channel at 0 or 255. */
  function ConvertTo4Color(c: Color): (q: Color)
    ensures q.a == 255
    ensures q.r in {0, 255} && q.g in {0, 255} && q.b in {0, 255}
    ensures (q.r == 255 <==> c.r >= 128) && (q.g == 255 <==> c.g >= 128) && (q.b == 255 <==> c.b >= 128)
  {
    FromRgb(TwoLevel(c.r), TwoLevel(c.g), TwoLevel(c.b))
  }

  /** Quantising twice is quantising once. */
  lemma ConvertTo4ColorIdempotent(c: Color)
    ensures ConvertTo4Color(ConvertTo4Color(c)) == ConvertTo4Color(c)
  {
  }

  const Black := FromRgb(0, 0, 0)
  const DarkGray := FromRgb(85, 85, 85)
  const LightGray := FromRgb(170, 170, 170)
  const White := FromRgb(255, 255, 255)

  /** `ConvertTo4ColorWithGrayscale(Color)`: the integer mean of R, G and B against 128, 256 and 384. */
  function ConvertTo4ColorWithGrayscale(c: Color): (r: Color)
    ensures r.a == 255 && r.r == r.g == r.b && r.r % 85 == 0
    ensures r.r == 0 <==> (c.r + c.g + c.b) / 3 < 128
  {
    var gray := (c.r + c.g + c.b) / 3;
    if gray < 128 then Black
    else if gray < 128 * 2 then DarkGray
    else if gray < 128 * 3 then LightGray
    else White
  }

  /** The mean of three bytes never reaches 256: only black and dark grey are produced. */
  lemma GrayscaleTwoShades(c: Color)
    ensures ConvertTo4ColorWithGrayscale(c) in {Black, DarkGray}
    ensures ConvertTo4ColorWithGrayscale(c) == Black <==> c.r + c.g + c.b < 384
    ensures ConvertTo4ColorWithGrayscale(c) != LightGray && ConvertTo4ColorWithGrayscale(c) != White
  {
  }

  /** `ConvertTo4Color(Bitmap)`: a new bitmap of the same size, pixel by pixel, x outer and y inner. */
  method ConvertBitmapTo4Color(bmp: Bitmap) returns (result: Bitmap)
    requires bmp.Valid()
    ensures fresh(result) && fresh(result.pixels) && result.Valid()
    ensures result.width == bmp.width && result.height == bmp.height
    ensures forall y, x :: 0 <= y < bmp.height && 0 <= x < bmp.width ==>
      result.pixels[y, x] == ConvertTo4Color(bmp.pixels[y, x])
  {
    result := new Bitmap(bmp.width, bmp.height);
    for x := 0 to bmp.width
      invariant forall y', x' :: 0 <= y' < bmp.height && 0 <= x' < x ==>
        result.pixels[y', x'] == ConvertTo4Color(bmp.pixels[y', x'])
    {
      for y := 0 to bmp.height
        invariant forall y', x' :: 0 <= y' < bmp.height && 0 <= x' < x ==>
          result.pixels[y', x'] == ConvertTo4Color(bmp.pixels[y', x'])
        invariant forall y' :: 0 <= y' < y ==> result.pixels[y', x] == ConvertTo4Color(bmp.pixels[y', x])
      {
        result.pixels[y, x] := ConvertTo4Color(bmp.pixels[y, x]);
      }
    }
  }

  /** `ConvertTo4ColorWithGrayscale(Bitmap)`: a new bitmap of the same size, x outer and y inner. */
  method ConvertBitmapTo4ColorWithGrayscale(bmp: Bitmap) returns (result: Bitmap)
    requires bmp.Valid()
    ensures fresh(result) && fresh(result.pixels) && result.Valid()
    ensures result.width == bmp.width && result.height == bmp.height
    ensures forall y, x :: 0 <= y < bmp.height && 0 <= x < bmp.width ==>
      result.pixels[y, x] == ConvertTo4ColorWithGrayscale(bmp.pixels[y, x])
  {
    result := new Bitmap(bmp.width, bmp.height);
    for x := 0 to bmp.width
      invariant forall y', x' :: 0 <= y' < bmp.height && 0 <= x' < x ==>
        result.pixels[y', x'] == ConvertTo4ColorWithGrayscale(bmp.pixels[y', x'])
    {
      for y := 0 to bmp.height
        invariant forall y', x' :: 0 <= y' < bmp.height && 0 <= x' < x ==>
          result.pixels[y', x'] == ConvertTo4ColorWithGrayscale(bmp.pixels[y', x'])
        invariant forall y' :: 0 <= y' < y ==> result.pixels[y', x] == ConvertTo4ColorWithGrayscale(bmp.pixels[y', x])
      {
        result.pixels[y, x] := ConvertTo4ColorWithGrayscale(bmp.pixels[y, x]);
      }
    }
  }

  /** The colour a pixel has after replacing prevColor by newColor. */
  function Recolor(c: Color, prevColor: Color, newColor: Color): Color {
    if c == prevColor then newColor else c
  }

  /** Replacing a colour a second time changes nothing more. */
  lemma RecolorIdempotent(c: Color, prevColor: Color, newColor: Color)
    ensures Recolor(Recolor(c, prevColor, newColor), prevColor, newColor) == Recolor(c, prevColor, newColor)
    ensures Recolor(c, prevColor, newColor) == prevColor ==> prevColor == newColor
  {
  }

  /** `ChangeColor(Bitmap, ...)`: rewrites the given bitmap in place (y outer, x inner) and returns it. */
  method ChangeColor(bmp: Bitmap, prevColor: Color, newColor: Color) returns (result: Bitmap)
    requires bmp.Valid()
    modifies bmp.pixels
    ensures result == bmp
    ensures forall y, x :: 0 <= y < bmp.height && 0 <= x < bmp.width ==>
      bmp.pixels[y, x] == Recolor(old(bmp.pixels[y, x]), prevColor, newColor)
  {
    for y := 0 to bmp.height
      invariant forall y', x' :: 0 <= y' < bmp.height && 0 <= x' < bmp.width ==>
        bmp.pixels[y', x'] == (if y' < y then Recolor(old(bmp.pixels[y', x']), prevColor, newColor) else old(bmp.pixels[y', x']))
    {
      for x := 0 to bmp.width
        invariant forall y', x' :: 0 <= y' < bmp.height && 0 <= x' < bmp.width ==>
          bmp.pixels[y', x'] == (if y' < y || (y' == y && x' < x) then Recolor(old(bmp.pixels[y', x']), prevColor, newColor) else old(bmp.pixels[y', x']))
      {
        var pixelColor := bmp.pixels[y, x];
        if pixelColor == prevColor {
          bmp.pixels[y, x] := newColor;
        }
      }
    }
    return bmp;
  }
}
