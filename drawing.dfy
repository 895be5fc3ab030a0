/**
 * The System.Drawing types the library works on.
 *
 * `Color` is reduced to its four channels and compares channel by channel.
 * A bitmap that a member only reads (through GetPixel) is an `Image` value;
 * a bitmap that a member writes through SetPixel is a `Bitmap` object whose
 * pixel buffer is an `array2`, updated in place.
 */
module Drawing {
  import opened Wrappers
  import opened Arith
  import opened Enumeration

  datatype Color = Color(a: Byte, r: Byte, g: Byte, b: Byte)

  /** `Color.FromArgb(r, g, b)`: an opaque colour. */
  function FromRgb(r: Byte, g: Byte, b: Byte): Color {
    Color(255, r, g, b)
  }

  /** The colour of every pixel of a freshly created Bitmap (ARGB 0). */
  const Transparent := Color(0, 0, 0, 0)

  /** `Color.ToArgb()`: the 32-bit word A:R:G:B, read as the signed int that .NET returns. */
  function ToArgb(c: Color): (v: int)
    ensures -0x8000_0000 <= v < 0x8000_0000
    ensures v % 0x1_0000_0000 == c.a * 0x100_0000 + c.r * 0x1_0000 + c.g * 0x100 + c.b
  {
    var u := c.a * 0x100_0000 + c.r * 0x1_0000 + c.g * 0x100 + c.b;
    if u >= 0x8000_0000 then u - 0x1_0000_0000 else u
  }

  /** Distinct colours have distinct ARGB words. */
  lemma ToArgbInjective(c: Color, d: Color)
    requires ToArgb(c) == ToArgb(d)
    ensures c == d
  {
    var u := c.a * 0x100_0000 + c.r * 0x1_0000 + c.g * 0x100 + c.b;
    var w := d.a * 0x100_0000 + d.r * 0x1_0000 + d.g * 0x100 + d.b;
    assert u == w;
    DigitsEqual(c.a, c.r * 0x1_0000 + c.g * 0x100 + c.b, d.a, d.r * 0x1_0000 + d.g * 0x100 + d.b, 0x100_0000);
    DigitsEqual(c.r, c.g * 0x100 + c.b, d.r, d.g * 0x100 + d.b, 0x1_0000);
    DigitsEqual(c.g, c.b, d.g, d.b, 0x100);
  }

  /** A bitmap as the pixel buffer its readers see: `rows[y][x]` is `GetPixel(x, y)`. */
  datatype ImageData = ImageData(width: nat, height: nat, rows: seq<seq<Color>>)

  predicate WellFormed(d: ImageData) {
    |d.rows| == d.height && forall y :: 0 <= y < d.height ==> |d.rows[y]| == d.width
  }

  type Image = d: ImageData | WellFormed(d) witness ImageData(0, 0, [])

  /** `Bitmap.GetPixel(x, y)`. */
  function GetPixel(img: Image, x: nat, y: nat): Color
    requires x < img.width && y < img.height
  {
    img.rows[y][x]
  }

  /** GetPixel as a total function of (x, y), for the row-major scans. */
  function PixelFn(img: Image): (nat, nat) -> Color {
    (x: nat, y: nat) => if x < img.width && y < img.height then img.rows[y][x] else Transparent
  }

  /** Every pixel, y outer and x inner: the order in which the palette scans visit them. */
  function Pixels(img: Image): seq<Color> {
    RowMajor(PixelFn(img), img.width, img.height)
  }

  /** Pixel (x, y) is visited at position y * width + x of the scan. */
  lemma PixelVisited(img: Image, x: nat, y: nat)
    requires x < img.width && y < img.height
    ensures |Pixels(img)| == img.width * img.height
    ensures y * img.width + x < |Pixels(img)| && Pixels(img)[y * img.width + x] == GetPixel(img, x, y)
  {
    RowMajorAt(PixelFn(img), img.width, img.height, x, y);
  }

  /** The scan holds nothing but pixels of the image. */
  lemma ScanIsPixel(img: Image, k: nat)
    requires k < |Pixels(img)|
    ensures 0 < img.width && k / img.width < img.height
    ensures Pixels(img)[k] == GetPixel(img, k % img.width, k / img.width)
  {
    RowMajorElement(PixelFn(img), img.width, img.height, k);
  }

  /** A GDI+ Bitmap written through SetPixel: `pixels[y, x]` is pixel (x, y). */
  class Bitmap {
    const width: nat
    const height: nat
    const pixels: array2<Color>

    /** GDI+ bitmaps have positive dimensions; the buffer has the bitmap's size. */
    predicate Valid() {
      0 < width && 0 < height && pixels.Length0 == height && pixels.Length1 == width
    }

    /** `new Bitmap(w, h)`: every pixel starts transparent. */
    constructor (w: nat, h: nat)
      requires 0 < w && 0 < h
      ensures Valid() && width == w && height == h && fresh(pixels)
      ensures forall y, x :: 0 <= y < h && 0 <= x < w ==> pixels[y, x] == Transparent
    {
      width, height := w, h;
      pixels := new Color[h, w]((y, x) => Transparent);
    }
  }
}
