/**
  `demosaicBGGR` in src/go/process_capture/process_capture.go: a bilinear Bayer
  demosaic of a grayscale image whose sensor sites follow the BGGR pattern
  (blue at even row and even column, red at odd row and odd column, green
  elsewhere).

  The image is a rectangle anchored at (0, 0), as the TIFF decoder returns it;
  pixels are stored row by row. `GrayAt` outside the rectangle reads 0. Go adds
  two `uint8` values in `uint8`, so every two-pixel average wraps modulo 256
  before the halving; `Averaging` selects that arithmetic or the exact mean.
 */
module Demosaic {
  import opened Unsigned

  /** A grayscale image: `rows[y][x]`, every row `width` pixels long. */
  datatype Gray = Gray(width: nat, rows: seq<seq<byte>>)
  {
    predicate Valid() {
      forall y :: 0 <= y < |rows| ==> |rows[y]| == width
    }

    function Height(): nat {
      |rows|
    }
  }

  /** One RGBA pixel. */
  datatype Rgba = Rgba(r: byte, g: byte, b: byte, a: byte)

  /** The pixel `image.NewRGBA` starts with. */
  const BLANK := Rgba(0, 0, 0, 0)

  /** The colour of a sensor site. */
  datatype Colour = Red | Green | Blue

  /** The BGGR mosaic: which colour the sensor measures at (x, y). */
  function SiteColour(x: nat, y: nat): Colour {
    if y % 2 == 0 && x % 2 == 0 then Blue
    else if y % 2 == 1 && x % 2 == 1 then Red
    else Green
  }

  /** One channel of an RGBA pixel. */
  function Channel(p: Rgba, c: Colour): byte {
    match c
    case Red => p.r
    case Green => p.g
    case Blue => p.b
  }

  /** `gray.GrayAt(x, y).Y`: the stored value inside the rectangle, 0 outside it. */
  function GrayAt(img: Gray, x: int, y: int): byte
    requires img.Valid()
  {
    if 0 <= y < img.Height() && 0 <= x < img.width then img.rows[y][x] else 0
  }

  /** How two neighbours are averaged. */
  datatype Averaging =
    | Uint8Wrap  // Go's `(a + b) / 2` on `uint8`: the sum wraps modulo 256
    | Exact      // the mean of the two values, rounded down

  function Average(a: byte, b: byte, mode: Averaging): byte {
    match mode
    case Uint8Wrap => ((a + b) % 256) / 2
    case Exact => (a + b) / 2
  }

  /**
    Which pair a green site averages for the colour of the neighbouring rows.
    `RowBelowPair` is the code's pair (x, y + 1) and (x + 1, y + 1) on blue rows
    and (x, y - 1) and (x + 1, y - 1) on red rows; the second pixel of each pair
    is itself a green site. `VerticalPair` averages (x, y - 1) and (x, y + 1),
    the two nearest sites of the wanted colour.
   */
  datatype GreenSiteRule = RowBelowPair | VerticalPair

  /** A choice of arithmetic and green-site rule. */
  datatype Method = Method(averaging: Averaging, greenSites: GreenSiteRule)

  /** What process_capture.go computes. */
  const AS_WRITTEN := Method(Uint8Wrap, RowBelowPair)

  /** The demosaic with exact means and same-colour neighbours only. */
  const CORRECTED := Method(Exact, VerticalPair)

  /** The colour the loop body assigns at (x, y), before `rgba.Set`. */
  function SitePixel(img: Gray, x: nat, y: nat, how: Method): Rgba
    requires img.Valid()
  {
    var p := GrayAt(img, x, y);
    var avg := (a, b) => Average(a, b, how.averaging);
    if y % 2 == 0 then
      if x % 2 == 0 then
        Rgba(GrayAt(img, x + 1, y + 1), avg(GrayAt(img, x + 1, y), GrayAt(img, x, y + 1)), p, 255)
      else
        var r := match how.greenSites
          case RowBelowPair => avg(GrayAt(img, x, y + 1), GrayAt(img, x + 1, y + 1))
          case VerticalPair => avg(GrayAt(img, x, y - 1), GrayAt(img, x, y + 1));
        Rgba(r, p, avg(GrayAt(img, x - 1, y), GrayAt(img, x + 1, y)), 255)
    else
      if x % 2 == 0 then
        var b := match how.greenSites
          case RowBelowPair => avg(GrayAt(img, x, y - 1), GrayAt(img, x + 1, y - 1))
          case VerticalPair => avg(GrayAt(img, x, y - 1), GrayAt(img, x, y + 1));
        Rgba(avg(GrayAt(img, x - 1, y), GrayAt(img, x + 1, y)), p, b, 255)
      else
        Rgba(p, avg(GrayAt(img, x - 1, y), GrayAt(img, x, y - 1)), GrayAt(img, x - 1, y - 1), 255)
  }

  /**
    Whether the loops visit (x, y): `y < Dy() - 1` and `x < Dx() - 1`, so the
    last row and the last column are never written.
   */
  predicate Visited(img: Gray, x: nat, y: nat) {
    y + 1 < img.Height() && x + 1 < img.width
  }

  /** The value of the output at (x, y) once the loops have finished. */
  function Expected(img: Gray, x: nat, y: nat, how: Method): Rgba
    requires img.Valid()
  {
    if Visited(img, x, y) then SitePixel(img, x, y, how) else BLANK
  }

  /** An RGBA image of the same rectangle as `img`. */
  predicate SameBounds(img: Gray, out: seq<seq<Rgba>>) {
    |out| == img.Height() && forall y :: 0 <= y < |out| ==> |out[y]| == img.width
  }

  /**
    `demosaicBGGR`: a blank RGBA image of the same bounds, then one `Set` per
    visited position, row by row.
   */
  method DemosaicBGGR(img: Gray, how: Method) returns (out: seq<seq<Rgba>>)
    requires img.Valid()
    ensures SameBounds(img, out)
    ensures forall y, x :: 0 <= y < |out| && 0 <= x < |out[y]| ==> out[y][x] == Expected(img, x, y, how)
  {
    var w: int, h: int := img.width, img.Height();
    out := seq(h, _ => seq(w, _ => BLANK));
    var y := 0;
    while y < h - 1
      invariant 0 <= y <= if h == 0 then 0 else h - 1
      invariant SameBounds(img, out)
      invariant forall yy, xx :: 0 <= yy < h && 0 <= xx < w ==>
        out[yy][xx] == if yy < y && Visited(img, xx, yy) then SitePixel(img, xx, yy, how) else BLANK
    {
      var x := 0;
      while x < w - 1
        invariant 0 <= x <= if w == 0 then 0 else w - 1
        invariant SameBounds(img, out)
        invariant forall yy, xx :: 0 <= yy < h && 0 <= xx < w ==>
          out[yy][xx] == if (yy < y || (yy == y && xx < x)) && Visited(img, xx, yy) then SitePixel(img, xx, yy, how) else BLANK
      {
        out := out[y := out[y][x := SitePixel(img, x, y, how)]];
        x := x + 1;
      }
      y := y + 1;
    }
  }

  // ---------------------------------------------------------------------------
  // Properties
  // ---------------------------------------------------------------------------

  /** Every written pixel is opaque; the last row and the last column keep the blank pixel. */
  lemma WrittenAndUnwritten(img: Gray, x: nat, y: nat, how: Method)
    requires img.Valid() && y < img.Height() && x < img.width
    ensures Visited(img, x, y) ==> Expected(img, x, y, how).a == 255
    ensures y == img.Height() - 1 || x == img.width - 1 ==> Expected(img, x, y, how) == BLANK
  {
  }

  /** The channel a site measures is copied from the sensor unchanged. */
  lemma OwnChannelIsSensorValue(img: Gray, x: nat, y: nat, how: Method)
    requires img.Valid()
    ensures Channel(SitePixel(img, x, y, how), SiteColour(x, y)) == GrayAt(img, x, y)
  {
  }

  /** Whether (x2, y2) lies in the 3x3 neighbourhood of (x, y). */
  predicate Near(x: int, y: int, x2: int, y2: int) {
    -1 <= x2 - x <= 1 && -1 <= y2 - y <= 1
  }

  /**
    With the vertical pair at green sites, each channel is interpolated only
    from sites of its own colour next to the position: two images of the same
    size that agree on those sites produce the same channel there, whatever
    the other pixels hold.
   */
  lemma ChannelReadsOnlyItsColour(img1: Gray, img2: Gray, x: nat, y: nat, c: Colour, averaging: Averaging)
    requires img1.Valid() && img2.Valid()
    requires img1.width == img2.width && img1.Height() == img2.Height()
    requires forall x2: int, y2: int :: 0 <= x2 && 0 <= y2 && Near(x, y, x2, y2) && SiteColour(x2, y2) == c ==>
      GrayAt(img1, x2, y2) == GrayAt(img2, x2, y2)
    ensures Channel(SitePixel(img1, x, y, Method(averaging, VerticalPair)), c) ==
            Channel(SitePixel(img2, x, y, Method(averaging, VerticalPair)), c)
  {
    // Reads at negative coordinates are 0 in both images; every other read is of colour c.
    forall x2: int, y2: int | Near(x, y, x2, y2) && (x2 < 0 || y2 < 0 || SiteColour(x2, y2) == c)
      ensures GrayAt(img1, x2, y2) == GrayAt(img2, x2, y2)
    {
    }
    if y % 2 == 0 && x % 2 == 0 {
      assert SiteColour(x + 1, y + 1) == Red;
      assert SiteColour(x + 1, y) == Green && SiteColour(x, y + 1) == Green;
    } else if y % 2 == 0 {
      assert SiteColour(x, y + 1) == Red && (y == 0 || SiteColour(x, y - 1) == Red);
      assert SiteColour(x + 1, y) == Blue && SiteColour(x - 1, y) == Blue;
    } else if x % 2 == 0 {
      assert SiteColour(x + 1, y) == Red && (x == 0 || SiteColour(x - 1, y) == Red);
      assert SiteColour(x, y - 1) == Blue && SiteColour(x, y + 1) == Blue;
    } else {
      assert SiteColour(x - 1, y - 1) == Blue;
      assert SiteColour(x - 1, y) == Green && SiteColour(x, y - 1) == Green;
    }
  }

  /**
    As written, the red channel of a green site on a blue row depends on a
    green pixel: two 3x3 images that differ only at the green site (2, 1) give
    the green site (1, 0) a different red value.
   */
  lemma GreenSiteReadsGreenForRed()
    ensures Gray(3, [[0, 0, 0], [0, 0, 200], [0, 0, 0]]).Valid() && Gray(3, [[0, 0, 0], [0, 0, 0], [0, 0, 0]]).Valid()
    ensures SiteColour(2, 1) == Green && SiteColour(1, 0) == Green
    ensures SitePixel(Gray(3, [[0, 0, 0], [0, 0, 200], [0, 0, 0]]), 1, 0, AS_WRITTEN).r == 100
    ensures SitePixel(Gray(3, [[0, 0, 0], [0, 0, 0], [0, 0, 0]]), 1, 0, AS_WRITTEN).r == 0
    ensures SitePixel(Gray(3, [[0, 0, 0], [0, 0, 200], [0, 0, 0]]), 1, 0, CORRECTED).r == 0
  {
  }

  /** The exact mean never leaves the range of its two inputs. */
  lemma ExactAverageBetween(a: byte, b: byte)
    ensures a <= b ==> a <= Average(a, b, Exact) <= b
    ensures b <= a ==> b <= Average(a, b, Exact) <= a
  {
  }

  /**
    The wrap-around at image level: a blue site whose green neighbours read 200
    and 100 gets green 22 instead of 150.
   */
  lemma DemosaicWrapsGreen()
    ensures Average(200, 100, Uint8Wrap) == 22
    ensures Gray(3, [[0, 200, 0], [100, 0, 0], [0, 0, 0]]).Valid()
    ensures SitePixel(Gray(3, [[0, 200, 0], [100, 0, 0], [0, 0, 0]]), 0, 0, AS_WRITTEN).g == 22
    ensures SitePixel(Gray(3, [[0, 200, 0], [100, 0, 0], [0, 0, 0]]), 0, 0, CORRECTED).g == 150
  {
  }

  /**
    With exact averaging every channel of an interior site lies between the
    smallest and the largest sensor value in the image, as a mean of measured
    values must.
   */
  lemma ExactChannelsStayInRange(img: Gray, x: nat, y: nat, lo: byte, hi: byte, c: Colour, rule: GreenSiteRule)
    requires img.Valid() && 1 <= x && 1 <= y && Visited(img, x, y)
    requires forall y2, x2 :: 0 <= y2 < img.Height() && 0 <= x2 < img.width ==> lo <= img.rows[y2][x2] <= hi
    ensures lo <= Channel(SitePixel(img, x, y, Method(Exact, rule)), c) <= hi
  {
  }

  /**
    At x = 0 on an odd row the left neighbour is outside the image and reads 0,
    so red is half the right neighbour (with either arithmetic, since the sum
    cannot wrap).
   */
  lemma LeftEdgeRedIsHalved(img: Gray, y: nat, how: Method)
    requires img.Valid() && y % 2 == 1 && Visited(img, 0, y)
    ensures SitePixel(img, 0, y, how).r == img.rows[y][1] / 2
  {
  }
}
